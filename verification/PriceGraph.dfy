/** The pool graph both price searches walk. */
module PriceGraph {
  import opened Options

  /** A pool seen from an asset with a known price; without a depth function its liquidity is unbounded. */
  datatype Edge = Edge(to: int, price: nat -> nat, depth: Option<(nat, nat) -> nat>)

  type Graph = map<int, seq<Edge>>

  function EdgesOf(g: Graph, asset: int): seq<Edge> { if asset in g then g[asset] else [] }

  /** Seed prices in insertion order, one per asset. */
  type Seeds = seq<(int, nat)>

  ghost predicate DistinctSeeds(seeds: Seeds) {
    forall i, j :: 0 <= i < j < |seeds| ==> seeds[i].0 != seeds[j].0
  }

  predicate IsSeed(seeds: Seeds, asset: int) { exists i :: 0 <= i < |seeds| && seeds[i].0 == asset }

  /** The assets a search can ever reach. */
  ghost function Universe(seeds: Seeds, g: Graph): set<int> {
    (set i | 0 <= i < |seeds| :: seeds[i].0) + (set a, i | a in g && 0 <= i < |g[a]| :: g[a][i].to)
  }

  // ---------------------------------------------------------------- walks

  datatype Node = Node(asset: int, price: nat)

  /** The asset and price pairs at the end of the walks of exactly `k` crossings that enter no anchored asset. */
  ghost function Crossings(seeds: Seeds, anchored: set<int>, g: Graph, k: nat): set<Node> {
    if k == 0 then set i | 0 <= i < |seeds| :: Node(seeds[i].0, seeds[i].1)
    else
      set n, i | n in Crossings(seeds, anchored, g, k - 1) && 0 <= i < |EdgesOf(g, n.asset)|
                 && EdgesOf(g, n.asset)[i].to !in anchored
        :: Node(EdgesOf(g, n.asset)[i].to, EdgesOf(g, n.asset)[i].price(n.price))
  }

  lemma CrossingSteps(seeds: Seeds, anchored: set<int>, g: Graph, k: nat, n: Node, i: nat)
    requires n in Crossings(seeds, anchored, g, k) && i < |EdgesOf(g, n.asset)|
      && EdgesOf(g, n.asset)[i].to !in anchored
    ensures Node(EdgesOf(g, n.asset)[i].to, EdgesOf(g, n.asset)[i].price(n.price))
         in Crossings(seeds, anchored, g, k + 1)
  {
  }

  lemma CrossingComesFrom(seeds: Seeds, anchored: set<int>, g: Graph, k: nat, n: Node) returns (m: Node, i: nat)
    requires k > 0 && n in Crossings(seeds, anchored, g, k)
    ensures m in Crossings(seeds, anchored, g, k - 1) && i < |EdgesOf(g, m.asset)|
    ensures EdgesOf(g, m.asset)[i].to == n.asset && n.asset !in anchored
      && EdgesOf(g, m.asset)[i].price(m.price) == n.price
  {
    var m', i' :| m' in Crossings(seeds, anchored, g, k - 1) && 0 <= i' < |EdgesOf(g, m'.asset)|
                  && EdgesOf(g, m'.asset)[i'].to !in anchored
                  && n == Node(EdgesOf(g, m'.asset)[i'].to, EdgesOf(g, m'.asset)[i'].price(m'.price));
    m, i := m', i';
  }

  /** No price along any walk within the hop limit is rounded down to zero. */
  ghost predicate NeverTruncatesToZero(seeds: Seeds, anchored: set<int>, g: Graph, maxHops: nat) {
    forall k: nat, n :: 1 <= k <= maxHops && n in Crossings(seeds, anchored, g, k) ==> n.price != 0
  }
}
