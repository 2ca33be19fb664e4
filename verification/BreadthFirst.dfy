/** Multi-source breadth-first price resolution. */
module BreadthFirst {
  import opened Options
  import opened PriceGraph

  datatype Resolved = Resolved(price: nat, hops: nat)

  datatype Entry = Entry(asset: int, price: nat, hops: nat)

  /** Every resolved price is the price of a walk of `hops` crossings. */
  ghost predicate Sound(seeds: Seeds, anchored: set<int>, g: Graph, maxHops: nat, resolved: map<int, Resolved>) {
    forall a <- resolved ::
      && resolved[a].hops <= maxHops
      && Node(a, resolved[a].price) in Crossings(seeds, anchored, g, resolved[a].hops)
      && (resolved[a].hops == 0 || resolved[a].price != 0)
  }

  /** Everything within the hop limit is resolved, at no greater distance. */
  ghost predicate Complete(seeds: Seeds, anchored: set<int>, g: Graph, maxHops: nat, resolved: map<int, Resolved>) {
    forall k: nat, n :: k <= maxHops && n in Crossings(seeds, anchored, g, k) ==>
      n.asset in resolved && resolved[n.asset].hops <= k
  }

  ghost predicate SeedsKept(seeds: Seeds, resolved: map<int, Resolved>) {
    forall i :: 0 <= i < |seeds| ==> seeds[i].0 in resolved && resolved[seeds[i].0] == Resolved(seeds[i].1, 0)
  }

  /** The queue holds each resolved asset once, in order of distance. */
  ghost predicate QueueMatches(queue: seq<Entry>, resolved: map<int, Resolved>) {
    && (forall i :: 0 <= i < |queue| ==>
        queue[i].asset in resolved && resolved[queue[i].asset] == Resolved(queue[i].price, queue[i].hops))
    && (forall a <- resolved :: exists i :: 0 <= i < |queue| && queue[i].asset == a)
    && (forall i, j :: 0 <= i < j < |queue| ==> queue[i].asset != queue[j].asset && queue[i].hops <= queue[j].hops)
  }

  /** What an expanded edge leaves behind. */
  ghost predicate EdgeDone(anchored: set<int>, maxHops: nat, resolved: map<int, Resolved>, from: Entry, e: Edge) {
    (e.to !in anchored && from.hops + 1 <= maxHops && e.price(from.price) != 0)
      ==> e.to in resolved && resolved[e.to].hops <= from.hops + 1
  }

  ghost predicate EdgesDone(anchored: set<int>, g: Graph, maxHops: nat, resolved: map<int, Resolved>, from: Entry) {
    forall i :: 0 <= i < |EdgesOf(g, from.asset)| ==>
      EdgeDone(anchored, maxHops, resolved, from, EdgesOf(g, from.asset)[i])
  }

  lemma {:induction false} ClosedIsComplete(seeds: Seeds, anchored: set<int>, g: Graph, maxHops: nat, queue: seq<Entry>,
                                            resolved: map<int, Resolved>, k: nat, n: Node)
    requires k <= maxHops && n in Crossings(seeds, anchored, g, k)
    requires NeverTruncatesToZero(seeds, anchored, g, maxHops)
    requires Sound(seeds, anchored, g, maxHops, resolved) && SeedsKept(seeds, resolved) && QueueMatches(queue, resolved)
    requires forall i :: 0 <= i < |queue| ==> EdgesDone(anchored, g, maxHops, resolved, queue[i])
    ensures n.asset in resolved && resolved[n.asset].hops <= k
  {
    if k > 0 {
      var m, i := CrossingComesFrom(seeds, anchored, g, k, n);
      ClosedIsComplete(seeds, anchored, g, maxHops, queue, resolved, k - 1, m);
      var r := resolved[m.asset];
      CrossingSteps(seeds, anchored, g, r.hops, Node(m.asset, r.price), i);
      var j :| 0 <= j < |queue| && queue[j].asset == m.asset;
      assert EdgesDone(anchored, g, maxHops, resolved, queue[j]);
      assert EdgeDone(anchored, maxHops, resolved, queue[j], EdgesOf(g, m.asset)[i]);
    }
  }

  /** Entries before `head` are fully expanded. */
  ghost predicate Expanded(anchored: set<int>, g: Graph, maxHops: nat, resolved: map<int, Resolved>, queue: seq<Entry>,
                           head: nat) {
    forall j :: 0 <= j < head && j < |queue| ==> EdgesDone(anchored, g, maxHops, resolved, queue[j])
  }

  /** The pending entries are on the current level or the next. */
  ghost predicate TwoLevels(queue: seq<Entry>, head: nat, level: nat) {
    && (forall j :: 0 <= j < |queue| ==> queue[j].hops <= level + 1)
    && (forall j :: head <= j < |queue| ==> queue[j].hops >= level)
  }

  ghost predicate State(seeds: Seeds, anchored: set<int>, g: Graph, maxHops: nat, resolved: map<int, Resolved>,
                        queue: seq<Entry>, head: nat) {
    && QueueMatches(queue, resolved) && resolved.Keys <= Universe(seeds, g)
    && Sound(seeds, anchored, g, maxHops, resolved) && SeedsKept(seeds, resolved)
    && Expanded(anchored, g, maxHops, resolved, queue, head)
  }

  lemma ArrivalMatches(queue: seq<Entry>, resolved: map<int, Resolved>, e: Entry)
    requires QueueMatches(queue, resolved) && e.asset !in resolved
    requires forall j :: 0 <= j < |queue| ==> queue[j].hops <= e.hops
    ensures QueueMatches(queue + [e], resolved[e.asset := Resolved(e.price, e.hops)])
  {
    var resolved', queue' := resolved[e.asset := Resolved(e.price, e.hops)], queue + [e];
    forall a <- resolved' ensures exists j :: 0 <= j < |queue'| && queue'[j].asset == a {
      if a == e.asset {
        assert queue'[|queue|].asset == a;
      } else {
        var j :| 0 <= j < |queue| && queue[j].asset == a;
        assert queue'[j].asset == a;
      }
    }
  }

  lemma DoneStaysDone(anchored: set<int>, maxHops: nat, resolved: map<int, Resolved>, asset: int, r: Resolved)
    requires asset !in resolved
    ensures forall from, e :: EdgeDone(anchored, maxHops, resolved, from, e) ==>
      EdgeDone(anchored, maxHops, resolved[asset := r], from, e)
  {
  }

  /** `arrived` is what crossing the `i`th edge of the entry `from` yields. */
  ghost predicate Crosses(anchored: set<int>, g: Graph, from: Entry, i: nat, arrived: Entry) {
    && i < |EdgesOf(g, from.asset)| && EdgesOf(g, from.asset)[i].to == arrived.asset && arrived.asset !in anchored
    && EdgesOf(g, from.asset)[i].price(from.price) == arrived.price && arrived.hops == from.hops + 1
  }

  lemma ArrivalIsSound(seeds: Seeds, anchored: set<int>, g: Graph, maxHops: nat, resolved: map<int, Resolved>,
                       from: Entry, i: nat, arrived: Entry)
    requires Sound(seeds, anchored, g, maxHops, resolved) && Crosses(anchored, g, from, i, arrived)
    requires from.asset in resolved && resolved[from.asset] == Resolved(from.price, from.hops)
    requires arrived.price != 0 && arrived.hops <= maxHops
    ensures Sound(seeds, anchored, g, maxHops, resolved[arrived.asset := Resolved(arrived.price, arrived.hops)])
    ensures arrived.asset in Universe(seeds, g)
  {
    CrossingSteps(seeds, anchored, g, from.hops, Node(from.asset, from.price), i);
    assert g[from.asset][i].to == arrived.asset;
  }

  /** A first arrival, at the end of the queue, keeps everything. */
  lemma ArrivalKeepsState(seeds: Seeds, anchored: set<int>, g: Graph, maxHops: nat, resolved: map<int, Resolved>,
                          queue: seq<Entry>,
                          head: nat, level: nat, i: nat, arrived: Entry)
    requires State(seeds, anchored, g, maxHops, resolved, queue, head) && TwoLevels(queue, head, level)
    requires head < |queue| && queue[head].hops == level && level + 1 <= maxHops
    requires Crosses(anchored, g, queue[head], i, arrived) && arrived.asset !in resolved && arrived.price != 0
    ensures State(seeds, anchored, g, maxHops, resolved[arrived.asset := Resolved(arrived.price, arrived.hops)],
                  queue + [arrived], head)
    ensures TwoLevels(queue + [arrived], head, level)
  {
    assert resolved[queue[head].asset] == Resolved(queue[head].price, level);
    hide Crossings, Universe, EdgeDone, EdgesDone, Expanded;
    ArrivalIsSound(seeds, anchored, g, maxHops, resolved, queue[head], i, arrived);
    hide Sound;
    ArrivalOnNextLevel(queue, head, level, arrived);
    hide TwoLevels;
    ArrivalMatches(queue, resolved, arrived);
    hide QueueMatches, Crosses;
    ArrivalStaysExpanded(anchored, g, maxHops, resolved, queue, head, arrived);
    SeedsStayKept(seeds, resolved, arrived);
  }

  lemma SeedsStayKept(seeds: Seeds, resolved: map<int, Resolved>, arrived: Entry)
    requires SeedsKept(seeds, resolved) && arrived.asset !in resolved
    ensures SeedsKept(seeds, resolved[arrived.asset := Resolved(arrived.price, arrived.hops)])
  {
  }

  lemma ArrivalOnNextLevel(queue: seq<Entry>, head: nat, level: nat, arrived: Entry)
    requires TwoLevels(queue, head, level) && arrived.hops == level + 1
    ensures TwoLevels(queue + [arrived], head, level)
    ensures forall j :: 0 <= j < |queue| ==> queue[j].hops <= arrived.hops
  {
  }

  lemma ArrivalStaysExpanded(anchored: set<int>, g: Graph, maxHops: nat, resolved: map<int, Resolved>,
                             queue: seq<Entry>, head: nat, arrived: Entry)
    requires Expanded(anchored, g, maxHops, resolved, queue, head) && head < |queue| && arrived.asset !in resolved
    ensures Expanded(anchored, g, maxHops, resolved[arrived.asset := Resolved(arrived.price, arrived.hops)],
                     queue + [arrived], head)
  {
    DoneStaysDone(anchored, maxHops, resolved, arrived.asset, Resolved(arrived.price, arrived.hops));
    hide EdgeDone;
    assert forall j :: 0 <= j < head ==> (queue + [arrived])[j] == queue[j];
  }

  /** The next entry starts its level. */
  lemma Reached(seeds: Seeds, anchored: set<int>, g: Graph, maxHops: nat, resolved: map<int, Resolved>,
                queue: seq<Entry>, head: nat, level: nat)
    requires State(seeds, anchored, g, maxHops, resolved, queue, head) && TwoLevels(queue, head, level)
      && head < |queue|
    ensures TwoLevels(queue, head, queue[head].hops)
  {
    hide Sound, SeedsKept, Expanded, Universe;
  }

  /** An edge that needs no step, or whose step was taken, is done. */
  lemma Skipped(seeds: Seeds, anchored: set<int>, g: Graph, maxHops: nat, resolved: map<int, Resolved>,
                queue: seq<Entry>,
                head: nat, level: nat, i: nat)
    requires State(seeds, anchored, g, maxHops, resolved, queue, head) && TwoLevels(queue, head, level)
      && head < |queue|
    requires queue[head].hops == level && i < |EdgesOf(g, queue[head].asset)|
    ensures var e := EdgesOf(g, queue[head].asset)[i];
            e.to in anchored || e.to in resolved || level + 1 > maxHops || e.price(queue[head].price) == 0
            ==> EdgeDone(anchored, maxHops, resolved, queue[head], e)
  {
    var e := EdgesOf(g, queue[head].asset)[i];
    if e.to in resolved {
      var j :| 0 <= j < |queue| && queue[j].asset == e.to;
      assert resolved[e.to].hops == queue[j].hops;
    }
  }

  /** The anchored assets, at distance zero. */
  method SeedQueue(seeds: Seeds, anchored: set<int>, graph: Graph, maxHops: nat)
    returns (resolved: map<int, Resolved>, queue: seq<Entry>)
    requires DistinctSeeds(seeds)
    ensures State(seeds, anchored, graph, maxHops, resolved, queue, 0) && TwoLevels(queue, 0, 0)
  {
    hide Crossings, Universe, State;
    resolved, queue := map[], [];
    for i := 0 to |seeds|
      invariant |queue| == i && forall j :: 0 <= j < i ==> queue[j] == Entry(seeds[j].0, seeds[j].1, 0)
      invariant QueueMatches(queue, resolved)
    {
      forall a <- resolved ensures a != seeds[i].0 {
        var j :| 0 <= j < |queue| && queue[j].asset == a;
        assert seeds[j].0 == a;
      }
      ArrivalMatches(queue, resolved, Entry(seeds[i].0, seeds[i].1, 0));
      resolved := resolved[seeds[i].0 := Resolved(seeds[i].1, 0)];
      queue := queue + [Entry(seeds[i].0, seeds[i].1, 0)];
    }
    SeededState(seeds, anchored, graph, maxHops, resolved, queue);
  }

  lemma SeededState(seeds: Seeds, anchored: set<int>, graph: Graph, maxHops: nat, resolved: map<int, Resolved>,
                    queue: seq<Entry>)
    requires |queue| == |seeds| && forall j :: 0 <= j < |seeds| ==> queue[j] == Entry(seeds[j].0, seeds[j].1, 0)
    requires QueueMatches(queue, resolved)
    ensures State(seeds, anchored, graph, maxHops, resolved, queue, 0) && TwoLevels(queue, 0, 0)
  {
    forall a <- resolved
      ensures a in Universe(seeds, graph) && resolved[a].hops == 0
        && Node(a, resolved[a].price) in Crossings(seeds, anchored, graph, 0)
    {
      var j :| 0 <= j < |queue| && queue[j].asset == a;
      SeedIsCrossing(seeds, anchored, graph, j);
    }
    hide Crossings, Universe;
    forall i | 0 <= i < |seeds| ensures seeds[i].0 in resolved && resolved[seeds[i].0] == Resolved(seeds[i].1, 0) {
      assert queue[i].asset == seeds[i].0;
    }
  }

  lemma SeedIsCrossing(seeds: Seeds, anchored: set<int>, graph: Graph, j: nat)
    requires j < |seeds|
    ensures seeds[j].0 in Universe(seeds, graph) && Node(seeds[j].0, seeds[j].1) in Crossings(seeds, anchored, graph, 0)
  {
  }

  /** Expands one entry: first arrival wins; anchored assets and resolved ones are never entered. */
  method Expand(seeds: Seeds, anchored: set<int>, graph: Graph, maxHops: nat, before: map<int, Resolved>,
                pending: seq<Entry>,
                head: nat, ghost level: nat)
    returns (resolved: map<int, Resolved>, queue: seq<Entry>)
    requires State(seeds, anchored, graph, maxHops, before, pending, head) && TwoLevels(pending, head, level)
    requires head < |pending| && pending[head].hops == level
    ensures State(seeds, anchored, graph, maxHops, resolved, queue, head + 1) && TwoLevels(queue, head + 1, level)
    ensures |queue| >= |pending| && before.Keys <= resolved.Keys
      && (|queue| > |pending| ==> before.Keys < resolved.Keys)
  {
    hide QueueMatches, Sound, SeedsKept, Universe, EdgeDone;
    resolved, queue := before, pending;
    var entry := queue[head];
    var edges := EdgesOf(graph, entry.asset);
    for i := 0 to |edges|
      invariant |queue| >= |pending| && queue[head] == entry
      invariant before.Keys <= resolved.Keys && (|queue| > |pending| ==> before.Keys < resolved.Keys)
      invariant State(seeds, anchored, graph, maxHops, resolved, queue, head) && TwoLevels(queue, head, level)
      invariant forall j :: 0 <= j < i ==> EdgeDone(anchored, maxHops, resolved, entry, edges[j])
    {
      var edge := edges[i];
      Skipped(seeds, anchored, graph, maxHops, resolved, queue, head, level, i);
      if edge.to in anchored { continue; }
      if edge.to in resolved { continue; }
      var nextHops := entry.hops + 1;
      if nextHops > maxHops { continue; }
      var nextPrice := edge.price(entry.price);
      if nextPrice == 0 { continue; }
      var arrived := Entry(edge.to, nextPrice, nextHops);
      ArrivalKeepsState(seeds, anchored, graph, maxHops, resolved, queue, head, level, i, arrived);
      DoneStaysDone(anchored, maxHops, resolved, edge.to, Resolved(nextPrice, nextHops));
      resolved := resolved[edge.to := Resolved(nextPrice, nextHops)];
      queue := queue + [arrived];
      Skipped(seeds, anchored, graph, maxHops, resolved, queue, head, level, i);
    }
  }

  method BfsResolvePrices(seeds: Seeds, anchored: set<int>, graph: Graph, maxHops: nat)
    returns (resolved: map<int, Resolved>)
    requires DistinctSeeds(seeds)
    ensures SeedsKept(seeds, resolved)
    ensures Sound(seeds, anchored, graph, maxHops, resolved)
    ensures NeverTruncatesToZero(seeds, anchored, graph, maxHops) ==>
      Complete(seeds, anchored, graph, maxHops, resolved)
  {
    hide State, TwoLevels, Universe, Crossings;
    var queue;
    resolved, queue := SeedQueue(seeds, anchored, graph, maxHops);
    var head := 0;
    ghost var level := 0;
    while head < |queue|
      invariant head <= |queue| && State(seeds, anchored, graph, maxHops, resolved, queue, head)
      invariant TwoLevels(queue, head, level)
      decreases Universe(seeds, graph) - resolved.Keys, |queue| - head
    {
      ghost var before := resolved;
      Reached(seeds, anchored, graph, maxHops, resolved, queue, head, level);
      level := queue[head].hops;
      resolved, queue := Expand(seeds, anchored, graph, maxHops, resolved, queue, head, level);
      head := head + 1;
      ReachedInUniverse(seeds, anchored, graph, maxHops, resolved, queue, head);
      LessLeft(Universe(seeds, graph), before.Keys, resolved.Keys);
    }
    Finished(seeds, anchored, graph, maxHops, resolved, queue);
  }

  lemma ReachedInUniverse(seeds: Seeds, anchored: set<int>, g: Graph, maxHops: nat, resolved: map<int, Resolved>,
                          queue: seq<Entry>, head: nat)
    requires State(seeds, anchored, g, maxHops, resolved, queue, head)
    ensures resolved.Keys <= Universe(seeds, g)
  {
  }

  lemma LessLeft<T>(all: set<T>, before: set<T>, after: set<T>)
    requires before <= after <= all
    ensures all - after <= all - before && (before < after ==> all - after < all - before)
  {
    if before < after {
      var x :| x in after && x !in before;
      assert x in all - before && x !in all - after;
    }
  }

  lemma Finished(seeds: Seeds, anchored: set<int>, g: Graph, maxHops: nat, resolved: map<int, Resolved>,
                 queue: seq<Entry>)
    requires State(seeds, anchored, g, maxHops, resolved, queue, |queue|)
    ensures SeedsKept(seeds, resolved) && Sound(seeds, anchored, g, maxHops, resolved)
    ensures NeverTruncatesToZero(seeds, anchored, g, maxHops) ==> Complete(seeds, anchored, g, maxHops, resolved)
  {
    hide Sound, SeedsKept, QueueMatches, EdgesDone, Universe, Crossings;
    if NeverTruncatesToZero(seeds, anchored, g, maxHops) {
      forall k: nat, n | k <= maxHops && n in Crossings(seeds, anchored, g, k)
        ensures n.asset in resolved && resolved[n.asset].hops <= k
      {
        ClosedIsComplete(seeds, anchored, g, maxHops, queue, resolved, k, n);
      }
    }
  }
}
