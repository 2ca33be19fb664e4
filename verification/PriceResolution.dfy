/** The graph of a block's pools, and its prices. */
module PriceResolution {
  import opened Arithmetic
  import opened Options
  import opened Decimals
  import opened Sorting
  import opened Xyk
  import opened PriceGraph
  import opened Routes
  import opened Median
  import PathSearch

  datatype Pool = Pool(assetA: int, assetB: int, reserveA: nat, reserveB: nat)

  type AssetDecimals = map<int, nat>

  /** An empty side or an asset of unknown decimals leaves a pool out. */
  predicate Usable(p: Pool, decimals: AssetDecimals) {
    p.reserveA > 0 && p.reserveB > 0 && p.assetA in decimals && p.assetB in decimals
  }

  function SideA(p: Pool, decimals: AssetDecimals): Side
    requires p.assetA in decimals
  {
    Side(p.reserveA, decimals[p.assetA])
  }

  function SideB(p: Pool, decimals: AssetDecimals): Side
    requires p.assetB in decimals
  {
    Side(p.reserveB, decimals[p.assetB])
  }

  /** Knowing one side's price, the edge computes the other's. */
  function EdgeAcross(known: Side, unknown: Side, to: int): Edge {
    Edge(to,
         (price: nat) => if Priceable(known, unknown) then ComputePrice(known, unknown, price) else 0,
         Some((price: nat, computed: nat) => PoolLiquidityUsd(known, unknown, price, computed)))
  }

  /** An edge with the liquidity its list is sorted by. */
  datatype Ranked = Ranked(liquidity: nat, edge: Edge)

  function Liquidity(p: Pool, decimals: AssetDecimals): nat
    requires Usable(p, decimals)
  {
    Normalized(SideA(p, decimals)) + Normalized(SideB(p, decimals))
  }

  function EdgeFromA(p: Pool, decimals: AssetDecimals): Ranked
    requires Usable(p, decimals)
  {
    Ranked(Liquidity(p, decimals), EdgeAcross(SideA(p, decimals), SideB(p, decimals), p.assetB))
  }

  function EdgeFromB(p: Pool, decimals: AssetDecimals): Ranked
    requires Usable(p, decimals)
  {
    Ranked(Liquidity(p, decimals), EdgeAcross(SideB(p, decimals), SideA(p, decimals), p.assetA))
  }

  /** The edges of one pool that leave an asset. */
  function PoolEdges(p: Pool, decimals: AssetDecimals, asset: int): seq<Ranked> {
    if !Usable(p, decimals) then []
    else
      (if p.assetA == asset then [EdgeFromA(p, decimals)] else [])
        + (if p.assetB == asset then [EdgeFromB(p, decimals)] else [])
  }

  /** An asset's edges in the order the pools are listed. */
  function Added(pools: seq<Pool>, decimals: AssetDecimals, asset: int): seq<Ranked> {
    if pools == [] then [] else Added(pools[..|pools|-1], decimals, asset)
                                + PoolEdges(pools[|pools|-1], decimals, asset)
  }

  predicate MoreLiquid(a: Ranked, b: Ranked) { a.liquidity > b.liquidity }

  function EdgesIn(ranked: seq<Ranked>): seq<Edge> { seq(|ranked|, i requires 0 <= i < |ranked| => ranked[i].edge) }

  /** An asset's edges, deepest pool first. */
  function EdgeList(pools: seq<Pool>, decimals: AssetDecimals, asset: int): seq<Edge> {
    EdgesIn(Sorted(MoreLiquid, Added(pools, decimals, asset)))
  }

  /** The graph of the pools, whatever the order of its keys. */
  ghost predicate IsGraphOf(g: Graph, pools: seq<Pool>, decimals: AssetDecimals) {
    forall a :: EdgesOf(g, a) == EdgeList(pools, decimals, a) && (a in g <==> Added(pools, decimals, a) != [])
  }

  method AddEdge(graph: map<int, seq<Ranked>>, from: int, edge: Ranked) returns (next: map<int, seq<Ranked>>)
    ensures next == graph[from := (if from in graph then graph[from] else []) + [edge]]
  {
    next := graph;
    if from !in next { next := next[from := []]; }
    next := next[from := next[from] + [edge]];
  }

  ghost predicate HoldsAdded(graph: map<int, seq<Ranked>>, pools: seq<Pool>, decimals: AssetDecimals) {
    forall a :: HoldsAt(graph, Added(pools, decimals, a), a)
  }

  ghost predicate HoldsAt(graph: map<int, seq<Ranked>>, added: seq<Ranked>, a: int) {
    if added == [] then a !in graph else a in graph && graph[a] == added
  }

  method AddPool(graph: map<int, seq<Ranked>>, p: Pool, decimals: AssetDecimals) returns (next: map<int, seq<Ranked>>)
    ensures forall a, added :: HoldsAt(graph, added, a) ==> HoldsAt(next, added + PoolEdges(p, decimals, a), a)
  {
    hide Usable, EdgeFromA, EdgeFromB;
    next := graph;
    if Usable(p, decimals) {
      next := AddEdge(next, p.assetA, EdgeFromA(p, decimals));
      next := AddEdge(next, p.assetB, EdgeFromB(p, decimals));
    } else {
      assert forall added: seq<Ranked> :: added + [] == added;
    }
  }

  lemma AddedStep(pools: seq<Pool>, decimals: AssetDecimals, i: nat, a: int)
    requires i < |pools|
    ensures Added(pools[..i+1], decimals, a) == Added(pools[..i], decimals, a) + PoolEdges(pools[i], decimals, a)
  {
    assert pools[..i+1][..i] == pools[..i];
  }

  /** The edges of every asset, before sorting. */
  method CollectEdges(pools: seq<Pool>, decimals: AssetDecimals) returns (graph: map<int, seq<Ranked>>)
    ensures HoldsAdded(graph, pools, decimals)
  {
    hide PoolEdges, HoldsAt;
    graph := map[];
    NothingAdded(decimals);
    assert pools[..0] == [];
    for i := 0 to |pools|
      invariant HoldsAdded(graph, pools[..i], decimals)
    {
      ghost var before := graph;
      graph := AddPool(graph, pools[i], decimals);
      ghost var listed := pools[..i+1];
      forall a
        ensures HoldsAt(graph, Added(listed, decimals, a), a)
      {
        AddedStep(pools, decimals, i, a);
        assert HoldsAt(before, Added(pools[..i], decimals, a), a);
      }
    }
    assert pools[..|pools|] == pools;
  }

  lemma NothingAdded(decimals: AssetDecimals)
    ensures HoldsAdded(map[], [], decimals)
  {
  }

  method SortEdges(graph: map<int, seq<Ranked>>) returns (g: Graph)
    ensures forall a :: a in g <==> a in graph
    ensures forall a <- g :: g[a] == EdgesIn(Sorted(MoreLiquid, graph[a]))
  {
    hide EdgesIn, Sorted;
    g := map[];
    var assets := graph.Keys;
    while assets != {}
      invariant assets <= graph.Keys
      invariant forall a :: a in g <==> a in graph && a !in assets
      invariant forall a <- g :: g[a] == EdgesIn(Sorted(MoreLiquid, graph[a]))
      decreases |assets|
    {
      ghost var some: int := AnyOf(assets);
      assert some in assets;
      var a :| a in assets;
      g := g[a := EdgesIn(Sorted(MoreLiquid, graph[a]))];
      assets := assets - {a};
    }
  }

  method BuildGraph(pools: seq<Pool>, decimals: AssetDecimals) returns (g: Graph)
    ensures IsGraphOf(g, pools, decimals)
  {
    hide Added, Sorted;
    var graph := CollectEdges(pools, decimals);
    g := SortEdges(graph);
    NothingSorted();
    forall a
      ensures EdgesOf(g, a) == EdgeList(pools, decimals, a)
      ensures a in g <==> Added(pools, decimals, a) != []
    {
      assert HoldsAt(graph, Added(pools, decimals, a), a);
    }
  }

  lemma NothingSorted()
    ensures Sorted(MoreLiquid, []) == []
  {
  }

  // ---------------------------------------------------------------- what the graph says

  /** A pool usable in the direction from one asset to another. */
  ghost predicate Trades(p: Pool, decimals: AssetDecimals, from: int, e: Edge) {
    Usable(p, decimals) && ((p.assetA == from && e == EdgeFromA(p, decimals).edge)
                            || (p.assetB == from && e == EdgeFromB(p, decimals).edge))
  }

  lemma {:induction false} AddedAreThePools(pools: seq<Pool>, decimals: AssetDecimals, a: int, r: Ranked)
    ensures r in Added(pools, decimals, a) <==> exists p <- pools :: r in PoolEdges(p, decimals, a)
  {
    if pools != [] {
      hide PoolEdges;
      var init, last := pools[..|pools|-1], pools[|pools|-1];
      AddedAreThePools(init, decimals, a, r);
      assert pools == init + [last];
    }
  }

  lemma MoreLiquidIsAnOrder()
    ensures StrictWeakOrder(MoreLiquid)
  {
  }

  /** The edges out of an asset are its usable pools', both ways, and deeper pools come first. */
  lemma EdgesAreThePools(pools: seq<Pool>, decimals: AssetDecimals, a: int, e: Edge)
    ensures e in EdgeList(pools, decimals, a) <==> exists p <- pools :: Trades(p, decimals, a, e)
    ensures var ranked := Sorted(MoreLiquid, Added(pools, decimals, a)); forall i, j :: 0 <= i < j < |ranked| ==>
      ranked[i].liquidity >= ranked[j].liquidity
  {
    hide EdgeAcross, Added, Sorted;
    MoreLiquidIsAnOrder();
    var added := Added(pools, decimals, a);
    SortedIsSorted(MoreLiquid, added);
    var ranked := Sorted(MoreLiquid, added);
    if e in EdgeList(pools, decimals, a) {
      var i :| 0 <= i < |ranked| && EdgesIn(ranked)[i] == e;
      assert ranked[i] in added;
      AddedAreThePools(pools, decimals, a, ranked[i]);
      var p :| p in pools && ranked[i] in PoolEdges(p, decimals, a);
      assert Trades(p, decimals, a, e);
    }
    if p :| p in pools && Trades(p, decimals, a, e) {
      var r := if p.assetA == a && e == EdgeFromA(p, decimals).edge then EdgeFromA(p, decimals)
        else EdgeFromB(p, decimals);
      assert r in PoolEdges(p, decimals, a);
      AddedAreThePools(pools, decimals, a, r);
      var i :| 0 <= i < |ranked| && ranked[i] == r;
      assert EdgesIn(ranked)[i] == e;
    }
  }

  /** Crossing a pool and coming back never gains. */
  lemma CrossingBackNeverGains(p: Pool, decimals: AssetDecimals, price: nat)
    requires Usable(p, decimals)
    ensures EdgeFromB(p, decimals).edge.price(EdgeFromA(p, decimals).edge.price(price)) <= price
    ensures EdgeFromA(p, decimals).edge.price(EdgeFromB(p, decimals).edge.price(price)) <= price
  {
    PriceThereAndBack(SideA(p, decimals), SideB(p, decimals), price);
    PriceThereAndBack(SideB(p, decimals), SideA(p, decimals), price);
  }

  // ---------------------------------------------------------------- edges in numbers

  /** `q` is the quotient rounded down. */
  predicate IsFloor(q: nat, numerator: nat, divisor: nat) { q * divisor <= numerator < (q + 1) * divisor }

  /** `n` is the reserve at eighteen decimals: scaled up exactly, or rounded down. */
  predicate AtEighteen(n: nat, reserve: nat, d: nat) {
    if d <= 18 then n == reserve * Pow10(18 - d) else IsFloor(n, reserve, Pow10(d - 18))
  }

  /** The value of `n` at a price with 24 decimals. */
  predicate IsUsd(v: nat, n: nat, price: nat) { IsFloor(v, n * price, 1_000_000_000_000_000_000_000_000) }

  /**
   What an edge out of a side with reserve `r` and `d` decimals into one with `r'` and `d'` computes: value
   in equals value out, and the pool is as deep as the cheaper of its two sides.
   */
  ghost predicate PricesAcross(e: Edge, r: nat, d: nat, r': nat, d': nat) {
    && (forall x: nat :: IsFloor(e.price(x), x * r * Pow10(d'), r' * Pow10(d)))
    && e.depth.Some?
    && (forall x: nat, q: nat :: IsDepth(e.depth.value(x, q), x, q, r, d, r', d'))
  }

  ghost predicate IsDepth(depth: nat, x: nat, q: nat, r: nat, d: nat, r': nat, d': nat) {
    exists n: nat, n': nat, v: nat, v': nat ::
      && AtEighteen(n, r, d) && AtEighteen(n', r', d') && IsUsd(v, n, x) && IsUsd(v', n', q)
      && depth <= v && depth <= v' && (depth == v || depth == v')
  }

  lemma QuotientIsFloor(a: nat, b: nat)
    requires b > 0
    ensures IsFloor(FloorDiv(a, b), a, b)
  {
    FloorBounds(a, b);
  }

  lemma NormalizedIsAtEighteen(side: Side)
    ensures AtEighteen(Normalized(side), side.reserve, side.decimals)
  {
    if side.decimals == 18 {
      assert Pow10(0) == 1;
      QuotientIsFloor(side.reserve, 1);
    } else if side.decimals > 18 {
      QuotientIsFloor(side.reserve, Pow10(side.decimals - 18));
    }
  }

  lemma ValueIsUsd(n: nat, price: nat)
    ensures IsUsd(UsdValue18(n, price), n, price)
  {
    QuotientIsFloor(Times(n, price), PRICE_24_SCALE);
  }

  lemma ProductsRegroup(a: nat, b: nat, c: nat)
    ensures Times(Times(a, b), c) == c * a * b
  {
    assert (a * b) * c == c * a * b;
  }

  lemma ComputedPriceIsFloor(known: Side, unknown: Side, x: nat)
    requires Priceable(known, unknown)
    ensures IsFloor(ComputePrice(known, unknown, x), x * known.reserve * Pow10(unknown.decimals),
                    unknown.reserve * Pow10(known.decimals))
  {
    hide Pow10, FloorDiv, IsFloor;
    TimesPositive(unknown.reserve, Pow10(known.decimals));
    ProductsRegroup(known.reserve, Pow10(unknown.decimals), x);
    QuotientIsFloor(Times(Times(known.reserve, Pow10(unknown.decimals)), x),
                    Times(unknown.reserve, Pow10(known.decimals)));
  }

  lemma DepthIsTheCheaperSide(known: Side, unknown: Side, x: nat, q: nat)
    ensures IsDepth(PoolLiquidityUsd(known, unknown, x, q), x, q, known.reserve, known.decimals, unknown.reserve,
                    unknown.decimals)
  {
    NormalizedIsAtEighteen(known);
    NormalizedIsAtEighteen(unknown);
    ValueIsUsd(Normalized(known), x);
    ValueIsUsd(Normalized(unknown), q);
    hide Normalized, UsdValue18, AtEighteen, IsUsd;
  }

  lemma EdgeAcrossPrices(known: Side, unknown: Side, to: int)
    requires Priceable(known, unknown)
    ensures PricesAcross(EdgeAcross(known, unknown, to), known.reserve, known.decimals, unknown.reserve,
                         unknown.decimals)
  {
    var e := EdgeAcross(known, unknown, to);
    hide IsFloor, ComputePrice, PoolLiquidityUsd, IsDepth;
    forall x: nat
      ensures IsFloor(e.price(x), x * known.reserve * Pow10(unknown.decimals), unknown.reserve * Pow10(known.decimals))
    {
      ComputedPriceIsFloor(known, unknown, x);
    }
    forall x: nat, q: nat
      ensures IsDepth(e.depth.value(x, q), x, q, known.reserve, known.decimals, unknown.reserve, unknown.decimals)
    {
      DepthIsTheCheaperSide(known, unknown, x, q);
    }
  }

  /** Both edges of a usable pool, and the liquidity their lists are sorted by, in its reserves and decimals. */
  lemma EdgesInNumbers(p: Pool, decimals: AssetDecimals)
    requires Usable(p, decimals)
    ensures var a, b := EdgeFromA(p, decimals), EdgeFromB(p, decimals);
            && a.edge.to == p.assetB && b.edge.to == p.assetA
            && PricesAcross(a.edge, p.reserveA, decimals[p.assetA], p.reserveB, decimals[p.assetB])
            && PricesAcross(b.edge, p.reserveB, decimals[p.assetB], p.reserveA, decimals[p.assetA])
            && exists n: nat, n': nat :: AtEighteen(n, p.reserveA, decimals[p.assetA])
                                         && AtEighteen(n', p.reserveB, decimals[p.assetB])
                                         && a.liquidity == n + n' == b.liquidity
  {
    EdgeAcrossPrices(SideA(p, decimals), SideB(p, decimals), p.assetB);
    EdgeAcrossPrices(SideB(p, decimals), SideA(p, decimals), p.assetA);
    NormalizedIsAtEighteen(SideA(p, decimals));
    NormalizedIsAtEighteen(SideB(p, decimals));
    hide PricesAcross, Normalized, AtEighteen;
  }

  /** Every edge of the graph is a usable pool's, priced from its reserves; nothing else is. */
  lemma GraphPricesPools(g: Graph, pools: seq<Pool>, decimals: AssetDecimals, a: int, e: Edge)
    requires IsGraphOf(g, pools, decimals) && e in EdgesOf(g, a)
    ensures exists p <- pools :: p.reserveA > 0 && p.reserveB > 0 && p.assetA in decimals && p.assetB in decimals
              && ((p.assetA == a && p.assetB == e.to
                   && PricesAcross(e, p.reserveA, decimals[p.assetA], p.reserveB, decimals[p.assetB]))
                  || (p.assetB == a && p.assetA == e.to
                      && PricesAcross(e, p.reserveB, decimals[p.assetB], p.reserveA, decimals[p.assetA])))
  {
    EdgesAreThePools(pools, decimals, a, e);
    var p :| p in pools && Trades(p, decimals, a, e);
    EdgesInNumbers(p, decimals);
    hide PricesAcross, EdgeFromA, EdgeFromB;
  }

  /** A pool with two reserves and known decimals gives an edge each way. */
  lemma PoolsHaveEdges(g: Graph, pools: seq<Pool>, decimals: AssetDecimals, p: Pool)
    requires IsGraphOf(g, pools, decimals) && p in pools
    requires p.reserveA > 0 && p.reserveB > 0 && p.assetA in decimals && p.assetB in decimals
    ensures exists e <- EdgesOf(g, p.assetA) ::
              e.to == p.assetB && PricesAcross(e, p.reserveA, decimals[p.assetA], p.reserveB, decimals[p.assetB])
    ensures exists e <- EdgesOf(g, p.assetB) ::
              e.to == p.assetA && PricesAcross(e, p.reserveB, decimals[p.assetB], p.reserveA, decimals[p.assetA])
  {
    var a, b := EdgeFromA(p, decimals).edge, EdgeFromB(p, decimals).edge;
    EdgesInNumbers(p, decimals);
    EdgesAreThePools(pools, decimals, p.assetA, a);
    EdgesAreThePools(pools, decimals, p.assetB, b);
    assert Trades(p, decimals, p.assetA, a) && Trades(p, decimals, p.assetB, b);
    hide PricesAcross, EdgeFromA, EdgeFromB, EdgeList;
  }

  // ---------------------------------------------------------------- published prices

  const MAX_HOPS := 3

  datatype Settings = Settings(threshold: nat, maxObservations: int, pricedAssetIds: Option<seq<int>>)

  function ProblemOf(seeds: Seeds, graph: Graph, settings: Settings): PathSearch.Problem {
    var anchored := set i | 0 <= i < |seeds| :: seeds[i].0;
    PathSearch.Problem(seeds, anchored, graph, MAX_HOPS, settings.threshold, Max(1, settings.maxObservations))
  }

  /** Seed texts in insertion order, one per asset. */
  type SeedPrices = seq<(int, string)>

  ghost predicate Distinct(seeds: SeedPrices) { forall i, j :: 0 <= i < j < |seeds| ==> seeds[i].0 != seeds[j].0 }

  predicate IsSeeded(seeds: SeedPrices, asset: int) { exists i :: 0 <= i < |seeds| && seeds[i].0 == asset }

  ghost predicate AreNumbers(seeds: SeedPrices, numbers: Seeds) {
    |numbers| == |seeds| && forall i :: 0 <= i < |seeds| ==>
      numbers[i].0 == seeds[i].0 && PriceTo24(seeds[i].1) == Number(numbers[i].1)
  }

  predicate IsPublished(settings: Settings, asset: int) {
    settings.pricedAssetIds.None? || asset in settings.pricedAssetIds.value
  }

  datatype Priced = Priced(price: string, hops: nat)

  /**
   What is published for an asset: a seed's own text; otherwise the text of a weighted median of its
   observed routes.
   */
  ghost predicate Publishes(seeds: SeedPrices, shelves: PathSearch.Shelves, asset: int, r: Priced) {
    || (exists i :: 0 <= i < |seeds| && seeds[i].0 == asset && r == Priced(seeds[i].1, 0))
    || (!IsSeeded(seeds, asset) && exists o :: IsMedian(PathSearch.ShelfOf(shelves, asset).list, o)
                                               && r == Priced(Price24ToString(o.price), o.hops))
  }

  /**
   What is observed behind a block's prices: simple routes of at most three pools that begin at a seed and
   meet no other, above the liquidity floor, and never more of them for an asset than allowed.
   */
  lemma ObservedRoutes(numbers: Seeds, graph: Graph, settings: Settings, shelves: PathSearch.Shelves, asset: int,
                       o: Observation)
    requires PathSearch.ShelvesSound(ProblemOf(numbers, graph, settings), shelves)
    requires o in PathSearch.ShelfOf(shelves, asset).list
    ensures 1 <= o.hops <= 3 && |o.path| == o.hops + 1 && o.path[o.hops] == asset && o.price > 0
    ensures forall i :: 0 <= i < |o.path| ==> (IsSeed(numbers, o.path[i]) <==> i == 0)
    ensures forall i, j :: 0 <= i < j < |o.path| ==> o.path[i] != o.path[j]
    ensures o.liquidity >= settings.threshold
    ensures |PathSearch.ShelfOf(shelves, asset).list| <= (if settings.maxObservations < 1 then 1
                                                          else settings.maxObservations)
  {
    var p := ProblemOf(numbers, graph, settings);
    hide RoutesOf;
    assert PathSearch.Follows(p, asset, o);
    RoutesAreSimplePaths(p.seeds, p.anchored, p.graph, o.hops, PathSearch.RouteOf(o));
    forall i | 0 < i < |o.path| ensures !IsSeed(numbers, o.path[i]) {
      assert o.path[i] !in p.anchored;
    }
  }

  method SeedNumbers(seeds: SeedPrices) returns (numbers: Option<Seeds>)
    ensures numbers.None? <==> exists i :: 0 <= i < |seeds| && PriceTo24(seeds[i].1).NotANumber?
    ensures numbers.Some? ==> AreNumbers(seeds, numbers.value)
  {
    hide PriceTo24;
    var out: Seeds := [];
    for i := 0 to |seeds|
      invariant |out| == i
      invariant forall j :: 0 <= j < i ==> out[j].0 == seeds[j].0 && PriceTo24(seeds[j].1) == Number(out[j].1)
    {
      var number := PriceTo24(seeds[i].1);
      if number.NotANumber? { return None; }
      PriceIsNatural(seeds[i].1);
      out := out + [(seeds[i].0, number.value)];
    }
    numbers := Some(out);
  }

  lemma PriceIsNatural(price: string)
    ensures PriceTo24(price).Number? ==> PriceTo24(price).value >= 0
  {
  }

  lemma SameSeeds(seeds: SeedPrices, numbers: Seeds, a: int)
    requires AreNumbers(seeds, numbers)
    ensures IsSeed(numbers, a) <==> IsSeeded(seeds, a)
  {
    if IsSeed(numbers, a) {
      var i :| 0 <= i < |numbers| && numbers[i].0 == a;
      assert seeds[i].0 == a;
    }
    if IsSeeded(seeds, a) {
      var i :| 0 <= i < |seeds| && seeds[i].0 == a;
      assert numbers[i].0 == a;
    }
  }

  /** Seeds as they came, then every resolved asset that is no seed. */
  method WritePrices(seeds: SeedPrices, resolved: map<int, PathSearch.PathPrice>) returns (prices: map<int, Priced>)
    requires Distinct(seeds) && forall i :: 0 <= i < |seeds| ==> seeds[i].0 in resolved
    ensures forall a :: a in prices <==> a in resolved
    ensures forall i :: 0 <= i < |seeds| ==> seeds[i].0 in prices && prices[seeds[i].0] == Priced(seeds[i].1, 0)
    ensures forall a <- resolved :: !IsSeeded(seeds, a) ==>
      a in prices && prices[a] == Priced(Price24ToString(resolved[a].price), resolved[a].hops)
  {
    hide Price24ToString;
    prices := map[];
    for i := 0 to |seeds|
      invariant forall a :: a in prices <==> exists j :: 0 <= j < i && seeds[j].0 == a
      invariant forall j :: 0 <= j < i ==> prices[seeds[j].0] == Priced(seeds[j].1, 0)
    {
      prices := prices[seeds[i].0 := Priced(seeds[i].1, 0)];
    }
    ghost var anchored := prices;
    var assets := resolved.Keys;
    while assets != {}
      invariant assets <= resolved.Keys
      invariant forall a :: a in prices <==> a in anchored || (a in resolved && a !in assets)
      invariant forall a <- anchored :: prices[a] == anchored[a]
      invariant forall a <- prices :: a !in anchored ==>
        prices[a] == Priced(Price24ToString(resolved[a].price), resolved[a].hops)
      decreases |assets|
    {
      ghost var some: int := AnyOf(assets);
      assert some in assets;
      var a :| a in assets;
      if a !in prices { prices := prices[a := Priced(Price24ToString(resolved[a].price), resolved[a].hops)]; }
      assets := assets - {a};
    }
  }

  /**
   The prices of a block. Absent when a seed's text is no number. Seeds keep their own texts; every other
   published asset gets a weighted median over its routes, and with room for all routes the observations
   behind it are exactly the simple paths of nonzero price.
   */
  method ResolvePrices(pools: seq<Pool>, decimals: AssetDecimals, seedPrices: SeedPrices, settings: Settings)
    returns (prices: Option<map<int, Priced>>, ghost graph: Graph, ghost numbers: Seeds,
             ghost shelves: PathSearch.Shelves,
             ghost queue: seq<PathSearch.PathEntry>)
    requires Distinct(seedPrices)
    ensures prices.None? <==> exists i :: 0 <= i < |seedPrices| && PriceTo24(seedPrices[i].1).NotANumber?
    ensures prices.Some? ==> IsGraphOf(graph, pools, decimals) && AreNumbers(seedPrices, numbers)
    ensures prices.Some? ==> PathSearch.ShelvesSound(ProblemOf(numbers, graph, settings), shelves)
    ensures prices.Some? ==> PathSearch.LiquidityAccounted(ProblemOf(numbers, graph, settings), shelves, queue)
    ensures prices.Some? ==> forall a :: a in prices.value <==>
      && (settings.pricedAssetIds.Some? ==> a in settings.pricedAssetIds.value)
      && (IsSeeded(seedPrices, a) || PathSearch.ShelfOf(shelves, a).list != [])
    ensures prices.Some? ==> forall a <- prices.value :: Publishes(seedPrices, shelves, a, prices.value[a])
    ensures prices.Some? && PathSearch.Roomy(ProblemOf(numbers, graph, settings)) ==> forall a ::
      PathSearch.RoutesOn(PathSearch.ShelfOf(shelves, a).list)
        == RoutesTo(numbers, ProblemOf(numbers, graph, settings).anchored, graph, MAX_HOPS, a)
  {
    hide PathSearch.ShelvesSound, PathSearch.LiquidityAccounted, PathSearch.Roomy, RoutesTo, IsMedian, PriceTo24,
      Price24ToString, IsGraphOf;
    prices, graph, numbers, shelves, queue := None, map[], [], map[], [];
    var seeds := SeedNumbers(seedPrices);
    if seeds.None? { return; }
    numbers := seeds.value;
    var g := BuildGraph(pools, decimals);
    graph := g;
    forall a ensures IsSeed(seeds.value, a) <==> IsSeeded(seedPrices, a) { SameSeeds(seedPrices, seeds.value, a); }
    var resolved, found, entries := PathSearch.ResolveByWeightedMedian(ProblemOf(seeds.value, g, settings));
    shelves, queue := found, entries;
    forall i | 0 <= i < |seedPrices| ensures seedPrices[i].0 in resolved {
      assert IsSeed(seeds.value, seeds.value[i].0);
    }
    var written := WritePrices(seedPrices, resolved);
    forall a | a in written
      ensures Publishes(seedPrices, shelves, a, written[a])
    {
      MedianIsPublished(seedPrices, seeds.value, ProblemOf(seeds.value, g, settings), found, resolved, written, a);
    }
    prices := Some(map a | a in written && IsPublished(settings, a) :: written[a]);
  }

  lemma MedianIsPublished(seedPrices: SeedPrices, numbers: Seeds, p: PathSearch.Problem, shelves: PathSearch.Shelves,
                          resolved: map<int, PathSearch.PathPrice>, written: map<int, Priced>, a: int)
    requires AreNumbers(seedPrices, numbers) && p.seeds == numbers && a in written && a in resolved
    requires PathSearch.Chosen(p, shelves, a, resolved[a])
    requires forall i :: 0 <= i < |seedPrices| ==>
      seedPrices[i].0 in written && written[seedPrices[i].0] == Priced(seedPrices[i].1, 0)
    requires !IsSeeded(seedPrices, a) ==> written[a] == Priced(Price24ToString(resolved[a].price), resolved[a].hops)
    ensures Publishes(seedPrices, shelves, a, written[a])
  {
    hide IsMedian, Price24ToString, PriceTo24;
    SameSeeds(seedPrices, numbers, a);
    if IsSeeded(seedPrices, a) {
      var i :| 0 <= i < |seedPrices| && seedPrices[i].0 == a;
      assert written[a] == Priced(seedPrices[i].1, 0);
    }
  }
}
