/** The liquidity-weighted median. */
module Median {
  import opened Options
  import opened Sorting

  /** A price that reached an asset along a path of pools. */
  datatype Observation = Observation(price: nat, hops: nat, liquidity: nat, path: seq<int>)

  /** Cheaper first, then fewer hops, then deeper liquidity. */
  predicate Precedes(a: Observation, b: Observation) {
    || a.price < b.price
    || (a.price == b.price && a.hops < b.hops)
    || (a.price == b.price && a.hops == b.hops && a.liquidity > b.liquidity)
  }

  function Weight(o: Observation): nat { Max(o.liquidity, 1) }

  lemma PrecedesIsAnOrder()
    ensures StrictWeakOrder(Precedes)
  {
  }

  // ---------------------------------------------------------------- what a weighted median is

  function WeightWhere(obs: seq<Observation>, p: Observation -> bool): nat {
    if obs == [] then 0
    else WeightWhere(obs[..|obs|-1], p) + (if p(obs[|obs|-1]) then Weight(obs[|obs|-1]) else 0)
  }

  function Any(): Observation -> bool { (x: Observation) => true }

  function Before(o: Observation): Observation -> bool { (x: Observation) => Precedes(x, o) }

  function UpTo(o: Observation): Observation -> bool { (x: Observation) => !Precedes(o, x) }


  function TotalWeight(obs: seq<Observation>): nat { WeightWhere(obs, Any()) }

  function Threshold(obs: seq<Observation>): nat { (TotalWeight(obs) + 1) / 2 }

  function WeightBefore(obs: seq<Observation>, o: Observation): nat {
    WeightWhere(obs, Before(o))
  }

  function WeightUpTo(obs: seq<Observation>, o: Observation): nat {
    WeightWhere(obs, UpTo(o))
  }

  /** Half the weight lies up to the observation, and not yet before it. */
  ghost predicate IsMedian(obs: seq<Observation>, o: Observation) {
    o in obs && WeightBefore(obs, o) < Threshold(obs) <= WeightUpTo(obs, o)
  }

  lemma {:induction false} WeightMonotone(obs: seq<Observation>, p: Observation -> bool, q: Observation -> bool)
    requires forall x <- obs :: p(x) ==> q(x)
    ensures WeightWhere(obs, p) <= WeightWhere(obs, q)
  {
    if obs != [] {
      WeightMonotone(obs[..|obs|-1], p, q);
    }
  }

  lemma {:induction false} WeightJoin(a: seq<Observation>, b: seq<Observation>, p: Observation -> bool)
    ensures WeightWhere(a + b, p) == WeightWhere(a, p) + WeightWhere(b, p)
  {
    if b == [] {
      assert a + b == a;
    } else {
      WeightJoin(a, b[..|b|-1], p);
      assert (a + b)[..|a + b|-1] == a + b[..|b|-1];
    }
  }

  lemma MultisetOfParts<T>(l: seq<T>, o: T, r: seq<T>)
    ensures multiset(l + [o] + r) == multiset(l + r) + multiset{o}
  {
  }

  lemma MultisetCancel<T>(a: multiset<T>, b: multiset<T>, o: T)
    requires a + multiset{o} == b + multiset{o}
    ensures a == b
  {
    assert a == (a + multiset{o}) - multiset{o} && b == (b + multiset{o}) - multiset{o};
  }

  lemma WithoutOne(b: seq<Observation>, i: nat, p: Observation -> bool)
    requires i < |b|
    ensures multiset(b) == multiset(b[..i] + b[i+1..]) + multiset{b[i]}
    ensures WeightWhere(b, p) == WeightWhere(b[..i] + b[i+1..], p) + (if p(b[i]) then Weight(b[i]) else 0)
  {
    hide WeightWhere, Weight;
    var l, o, r := b[..i], b[i], b[i+1..];
    assert l + [o] + r == b;
    assert multiset(b) == multiset(l + r) + multiset{o} by { MultisetOfParts(l, o, r); }
    WeightOfParts(l, o, r, p);
  }

  lemma WeightOfParts(l: seq<Observation>, o: Observation, r: seq<Observation>, p: Observation -> bool)
    ensures WeightWhere(l + [o] + r, p) == WeightWhere(l + r, p) + (if p(o) then Weight(o) else 0)
  {
    WeightJoin(l + [o], r, p);
    WeightJoin(l, r, p);
    WeightLast(l, o, p);
  }

  lemma WeightLast(l: seq<Observation>, o: Observation, p: Observation -> bool)
    ensures WeightWhere(l + [o], p) == WeightWhere(l, p) + (if p(o) then Weight(o) else 0)
  {
    assert (l + [o])[..|l|] == l;
  }

  lemma {:induction false} WeightIgnoresOrder(a: seq<Observation>, b: seq<Observation>, p: Observation -> bool)
    requires multiset(a) == multiset(b)
    ensures WeightWhere(a, p) == WeightWhere(b, p)
  {
    if a == [] {
      assert |b| == |multiset(b)| == 0;
    } else {
      hide WeightWhere, Weight;
      var o := a[|a|-1];
      assert o in multiset(a) && o in multiset(b) && o in b;
      var i :| 0 <= i < |b| && b[i] == o;
      WithoutOne(a, |a| - 1, p);
      WithoutOne(b, i, p);
      assert a[..|a|-1] + a[|a|..] == a[..|a|-1];
      MultisetCancel(multiset(a[..|a|-1]), multiset(b[..i] + b[i+1..]), o);
      WeightIgnoresOrder(a[..|a|-1], b[..i] + b[i+1..], p);
    }
  }

  /** A median of one order is a median of every order. */
  lemma MedianIgnoresOrder(a: seq<Observation>, b: seq<Observation>, o: Observation)
    requires multiset(a) == multiset(b) && IsMedian(a, o)
    ensures IsMedian(b, o)
  {
    WeightIgnoresOrder(a, b, Any());
    WeightIgnoresOrder(a, b, Before(o));
    WeightIgnoresOrder(a, b, UpTo(o));
    assert o in multiset(a);
  }

  /** All medians of the same observations, in whatever orders, agree on price, hops and liquidity. */
  lemma MedianIsUnique(a: seq<Observation>, b: seq<Observation>, o: Observation, o': Observation)
    requires multiset(a) == multiset(b) && IsMedian(a, o) && IsMedian(b, o')
    ensures o.price == o'.price && o.hops == o'.hops && o.liquidity == o'.liquidity
  {
    MedianIgnoresOrder(b, a, o');
    if Precedes(o, o') {
      WeightMonotone(a, UpTo(o), Before(o'));
    } else if Precedes(o', o) {
      WeightMonotone(a, UpTo(o'), Before(o));
    }
  }

  // ---------------------------------------------------------------- in prices, hops and liquidities

  /** Cheaper, or as cheap by fewer hops, or as both from deeper liquidity. */
  predicate ComesBefore(x: Observation, o: Observation) {
    || x.price < o.price
    || (x.price == o.price && x.hops < o.hops)
    || (x.price == o.price && x.hops == o.hops && x.liquidity > o.liquidity)
  }

  datatype Part =
    | All
    | Earlier(than: Observation)
    | NotLater(than: Observation)
    | Others(than: Observation)
    | Inside(lo: nat, hi: nat)

  predicate IsIn(x: Observation, part: Part) {
    match part
    case All => true
    case Earlier(o) => ComesBefore(x, o)
    case NotLater(o) => !ComesBefore(o, x)
    case Others(o) => ComesBefore(x, o) || ComesBefore(o, x)
    case Inside(lo, hi) => lo <= x.price <= hi
  }

  /** The liquidity of a part of the observations, where nothing counts less than one. */
  function LiquidityOf(obs: seq<Observation>, part: Part): nat {
    if obs == [] then 0
    else
      var last := obs[|obs|-1];
      LiquidityOf(obs[..|obs|-1], part)
      + (if !IsIn(last, part) then 0 else if last.liquidity > 1 then last.liquidity else 1)
  }

  lemma {:induction false} LiquidityIsWeight(obs: seq<Observation>, part: Part, p: Observation -> bool)
    requires forall x: Observation :: p(x) <==> IsIn(x, part)
    ensures LiquidityOf(obs, part) == WeightWhere(obs, p)
  {
    if obs != [] { LiquidityIsWeight(obs[..|obs|-1], part, p); }
  }

  /**
   A median is an observation with less than half the liquidity, rounded up, before it in order of price,
   hops and falling liquidity, and at least that much up to it and its ties.
   */
  lemma MedianInLiquidity(obs: seq<Observation>, o: Observation)
    ensures IsMedian(obs, o) <==>
              && o in obs
              && 2 * LiquidityOf(obs, Earlier(o)) < LiquidityOf(obs, All) + LiquidityOf(obs, All) % 2
              && LiquidityOf(obs, All) <= 2 * LiquidityOf(obs, NotLater(o))
  {
    LiquidityIsWeight(obs, All, Any());
    LiquidityIsWeight(obs, Earlier(o), Before(o));
    LiquidityIsWeight(obs, NotLater(o), UpTo(o));
  }

  lemma {:induction false} PartsOfLiquidity(obs: seq<Observation>, o: Observation)
    ensures LiquidityOf(obs, Earlier(o)) <= LiquidityOf(obs, Others(o)) <= LiquidityOf(obs, All)
    ensures LiquidityOf(obs, NotLater(o)) + LiquidityOf(obs, Others(o))
      == LiquidityOf(obs, All) + LiquidityOf(obs, Earlier(o))
  {
    if obs != [] { PartsOfLiquidity(obs[..|obs|-1], o); }
  }

  lemma {:induction false} PartGrows(obs: seq<Observation>, a: Part, b: Part)
    requires forall x: Observation :: IsIn(x, a) ==> IsIn(x, b)
    ensures LiquidityOf(obs, a) <= LiquidityOf(obs, b)
  {
    if obs != [] { PartGrows(obs[..|obs|-1], a, b); }
  }

  /** An observation that, with its ties, has more liquidity than all the others together is the median. */
  lemma HeaviestIsMedian(obs: seq<Observation>, o: Observation, m: Observation)
    requires 2 * LiquidityOf(obs, Others(o)) < LiquidityOf(obs, All) && IsMedian(obs, m)
    ensures m.price == o.price && m.hops == o.hops && m.liquidity == o.liquidity
  {
    MedianInLiquidity(obs, m);
    PartsOfLiquidity(obs, o);
    if ComesBefore(m, o) {
      PartGrows(obs, NotLater(m), Earlier(o));
    } else if ComesBefore(o, m) {
      PartGrows(obs, NotLater(o), Earlier(m));
    }
  }

  lemma {:induction false} PartsApart(obs: seq<Observation>, a: Part, b: Part)
    requires forall x: Observation :: !(IsIn(x, a) && IsIn(x, b))
    ensures LiquidityOf(obs, a) + LiquidityOf(obs, b) <= LiquidityOf(obs, All)
  {
    if obs != [] { PartsApart(obs[..|obs|-1], a, b); }
  }

  /** Whoever holds more than half of the liquidity inside `[lo, hi]` decides that the price lies there. */
  lemma MedianIsRobust(obs: seq<Observation>, o: Observation, lo: nat, hi: nat)
    requires IsMedian(obs, o)
    requires 2 * LiquidityOf(obs, Inside(lo, hi)) > LiquidityOf(obs, All)
    ensures lo <= o.price <= hi
  {
    MedianInLiquidity(obs, o);
    if o.price < lo {
      PartsApart(obs, NotLater(o), Inside(lo, hi));
    } else if o.price > hi {
      PartGrows(obs, Inside(lo, hi), Earlier(o));
    }
  }

  // ---------------------------------------------------------------- the computation

  lemma {:induction false} WeightOnPrefix(sorted: seq<Observation>, n: nat)
    requires InOrder(Precedes, sorted) && n < |sorted|
    ensures WeightBefore(sorted, sorted[n]) <= WeightWhere(sorted[..n], Any())
    ensures WeightWhere(sorted[..n+1], Any()) <= WeightUpTo(sorted, sorted[n])
  {
    var o := sorted[n];
    var before, upTo, all := Before(o), UpTo(o), Any();
    assert sorted == sorted[..n] + sorted[n..] && sorted == sorted[..n+1] + sorted[n+1..];
    WeightJoin(sorted[..n], sorted[n..], before);
    WeightMonotone(sorted[..n], before, all);
    WeightMonotone(sorted[n..], before, x => false);
    NoWeight(sorted[n..]);
    WeightJoin(sorted[..n+1], sorted[n+1..], upTo);
    WeightMonotone(sorted[..n+1], all, upTo);
  }

  lemma {:induction false} NoWeight(obs: seq<Observation>)
    ensures WeightWhere(obs, x => false) == 0
  {
    if obs != [] { NoWeight(obs[..|obs|-1]); }
  }

  lemma CrossingIsMedian(observations: seq<Observation>, n: nat)
    requires n < |Sorted(Precedes, observations)|
    requires WeightWhere(Sorted(Precedes, observations)[..n],
                         Any()) < Threshold(observations) <= WeightWhere(Sorted(Precedes, observations)[..n+1], Any())
    ensures IsMedian(observations, Sorted(Precedes, observations)[n])
  {
    var sorted := Sorted(Precedes, observations);
    PrecedesIsAnOrder();
    SortedIsSorted(Precedes, observations);
    WeightIgnoresOrder(sorted, observations, Any());
    WeightOnPrefix(sorted, n);
    MedianIgnoresOrder(sorted, observations, sorted[n]);
  }

  lemma SortingKeepsWeight(observations: seq<Observation>)
    ensures |Sorted(Precedes, observations)| == |observations|
    ensures TotalWeight(Sorted(Precedes, observations)) == TotalWeight(observations)
    ensures observations != [] ==> TotalWeight(observations) >= 1
  {
    PrecedesIsAnOrder();
    SortedIsSorted(Precedes, observations);
    WeightIgnoresOrder(Sorted(Precedes, observations), observations, Any());
  }

  /** Sorts, then walks until half the weight is behind. */
  method WeightedMedian(observations: seq<Observation>) returns (r: Option<Observation>)
    ensures observations == [] <==> r.None?
    ensures r.Some? ==> IsMedian(observations, r.value)
  {
    hide Sorted, IsMedian, Precedes;
    if |observations| == 0 {
      return None;
    }
    var sorted := Sorted(Precedes, observations);
    SortingKeepsWeight(observations);
    var totalWeight := 0;
    for i := 0 to |sorted|
      invariant totalWeight == WeightWhere(sorted[..i], Any())
    {
      assert sorted[..i+1][..i] == sorted[..i];
      totalWeight := totalWeight + Max(sorted[i].liquidity, 1);
    }
    assert sorted[..|sorted|] == sorted;
    var threshold := (totalWeight + 1) / 2;
    var runningWeight := 0;
    for i := 0 to |sorted|
      invariant runningWeight == WeightWhere(sorted[..i], Any()) && runningWeight < threshold
    {
      assert sorted[..i+1][..i] == sorted[..i];
      runningWeight := runningWeight + Max(sorted[i].liquidity, 1);
      if runningWeight >= threshold {
        CrossingIsMedian(observations, i);
        return Some(sorted[i]);
      }
    }
    // Half of the weight is behind before the list ends.
    assert false;
  }
}
