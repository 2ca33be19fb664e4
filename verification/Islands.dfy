/** The status page's window-function query for the last stretch of completed ranges, against plain merging. */
module Islands {
  import opened Options
  import opened BlockRanges

  /** The completed rows in the order of every window: by first block, then last. */
  ghost predicate Ordered(rows: seq<Range>) {
    forall i, j :: 0 <= i < j < |rows| ==>
      rows[i].fromBlock < rows[j].fromBlock || (rows[i].fromBlock == rows[j].fromBlock
                                                && rows[i].toBlock <= rows[j].toBlock)
  }

  /** `max(to_block)` over the preceding rows; over no rows it is zero, the column type's default. */
  function PrevMaxTo(rows: seq<Range>, i: nat): int
    requires i <= |rows|
  {
    if i == 0 then 0 else Max(PrevMaxTo(rows, i - 1), rows[i - 1].toBlock)
  }

  predicate StartsNew(rows: seq<Range>, i: nat)
    requires i < |rows|
  {
    PrevMaxTo(rows, i) == 0 || rows[i].fromBlock > PrevMaxTo(rows, i) + 1
  }

  /** The running sum of `starts_new`. */
  function IslandOf(rows: seq<Range>, i: nat): nat
    requires i < |rows|
  {
    (if i == 0 then 0 else IslandOf(rows, i - 1)) + (if StartsNew(rows, i) then 1 else 0)
  }

  /** A grouped row: the least first block and the greatest last block of one island. */
  ghost predicate IsGroup(rows: seq<Range>, island: nat, r: Range) {
    && (exists i :: 0 <= i < |rows| && IslandOf(rows, i) == island && rows[i].fromBlock == r.fromBlock)
    && (exists i :: 0 <= i < |rows| && IslandOf(rows, i) == island && rows[i].toBlock == r.toBlock)
    && (forall i :: 0 <= i < |rows| && IslandOf(rows, i) == island ==>
        r.fromBlock <= rows[i].fromBlock && rows[i].toBlock <= r.toBlock)
  }

  /** What `ORDER BY to_block DESC LIMIT 1` may return. */
  ghost predicate IsAnswer(rows: seq<Range>, r: Range) {
    && (exists island :: IsGroup(rows, island, r))
    && (forall island, other :: IsGroup(rows, island, other) ==> other.toBlock <= r.toBlock)
  }

  /**
   The one shape of table the query gets wrong: a lone block 0, then ranges from block 1 that reach the
   end unbroken.
   */
  ghost predicate GenesisSplit(rows: seq<Range>, merged: seq<Range>) {
    && Range(0, 0) in rows
    && (forall r <- rows :: r.fromBlock == 0 ==> r == Range(0, 0))
    && (exists r <- rows :: r.fromBlock == 1)
    && |merged| == 1
  }

  ghost predicate ValidRows(rows: seq<Range>) {
    rows != [] && NonEmpty(rows) && Ordered(rows) && forall i :: 0 <= i < |rows| ==> rows[i].fromBlock >= 0
  }

  /** `s` begins the last island. */
  ghost predicate LastStart(rows: seq<Range>, s: nat) {
    s < |rows| && StartsNew(rows, s) && forall i :: s < i < |rows| ==> !StartsNew(rows, i)
  }

  lemma {:induction false} LastStartExists(rows: seq<Range>, n: nat) returns (s: nat)
    requires 0 < n <= |rows| && forall i :: n <= i < |rows| ==> !StartsNew(rows, i)
    ensures LastStart(rows, s)
  {
    if StartsNew(rows, n - 1) {
      s := n - 1;
    } else {
      assert n > 1 by { assert StartsNew(rows, 0); }
      s := LastStartExists(rows, n - 1);
    }
  }

  lemma {:induction false} PrevMaxBounds(rows: seq<Range>, i: nat)
    requires ValidRows(rows) && i <= |rows|
    ensures forall j :: 0 <= j < i ==> rows[j].toBlock <= PrevMaxTo(rows, i)
    ensures i > 0 ==> exists j :: 0 <= j < i && rows[j].toBlock == PrevMaxTo(rows, i)
    ensures PrevMaxTo(rows, i) >= 0
  {
    if i > 0 { PrevMaxBounds(rows, i - 1); }
  }

  lemma {:induction false} IslandsCountUp(rows: seq<Range>, i: nat, j: nat)
    requires i <= j < |rows|
    ensures IslandOf(rows, i) <= IslandOf(rows, j)
    ensures i < j && StartsNew(rows, j) ==> IslandOf(rows, i) < IslandOf(rows, j)
    ensures (forall l :: i < l <= j ==> !StartsNew(rows, l)) ==> IslandOf(rows, i) == IslandOf(rows, j)
    decreases j - i
  {
    if i < j { IslandsCountUp(rows, i, j - 1); }
  }

  /** From the last start on, the ranges cover an unbroken stretch. */
  lemma {:induction false} StretchIsUnbroken(rows: seq<Range>, s: nat, n: nat, h: int)
    requires ValidRows(rows) && LastStart(rows, s) && s < n <= |rows|
    requires rows[s].fromBlock <= h <= PrevMaxTo(rows, n)
    ensures Covered(rows, h)
  {
    if n == s + 1 {
      PrevMaxBounds(rows, s);
      assert Within(rows[s], h);
    } else if h <= PrevMaxTo(rows, n - 1) {
      StretchIsUnbroken(rows, s, n - 1, h);
    } else {
      assert !StartsNew(rows, n - 1);
      assert Within(rows[n - 1], h);
    }
  }

  /** The query's answer is the last island, from its first row to the highest block of all. */
  lemma AnswerIsLastIsland(rows: seq<Range>, r: Range, s: nat)
    requires ValidRows(rows) && IsAnswer(rows, r) && LastStart(rows, s)
    ensures r == Range(rows[s].fromBlock, PrevMaxTo(rows, |rows|))
      || (r == Range(0, 0) && forall i :: 0 <= i < |rows| ==> rows[i] == r)
  {
    var n := |rows|;
    var own := Range(rows[s].fromBlock, PrevMaxTo(rows, n));
    PrevMaxBounds(rows, s);
    PrevMaxBounds(rows, n);
    TopRowIsInLastIsland(rows, s);
    GroupOfLast(rows, s);
    assert own.toBlock <= r.toBlock;
    var island :| IsGroup(rows, island, r);
    var i :| 0 <= i < n && IslandOf(rows, i) == island && rows[i].toBlock == r.toBlock;
    if i >= s {
      IslandsCountUp(rows, s, i);
    } else {
      assert rows[i].toBlock <= PrevMaxTo(rows, s);
      assert PrevMaxTo(rows, s) == 0;
      AllGenesis(rows, r, s, island);
    }
  }

  /** Some row of the last island reaches the highest block of all. */
  lemma TopRowIsInLastIsland(rows: seq<Range>, s: nat)
    requires ValidRows(rows) && LastStart(rows, s)
    ensures exists i :: s <= i < |rows| && rows[i].toBlock == PrevMaxTo(rows, |rows|)
  {
    PrevMaxBounds(rows, s);
    PrevMaxBounds(rows, |rows|);
    var i :| 0 <= i < |rows| && rows[i].toBlock == PrevMaxTo(rows, |rows|);
    if i < s { assert rows[s].toBlock <= rows[i].toBlock; }
  }

  lemma IslandsFromLast(rows: seq<Range>, s: nat, i: nat)
    requires LastStart(rows, s) && i < |rows|
    ensures IslandOf(rows, i) == IslandOf(rows, s) <==> i >= s
  {
    if i >= s { IslandsCountUp(rows, s, i); } else { IslandsCountUp(rows, i, s); }
  }

  lemma FirstsGrow(rows: seq<Range>, s: nat, i: nat)
    requires Ordered(rows) && s <= i < |rows|
    ensures rows[s].fromBlock <= rows[i].fromBlock
  {
  }

  lemma GroupByIndex(rows: seq<Range>, island: nat, s: nat, top: nat)
    requires s <= top < |rows| && IslandOf(rows, s) == island && IslandOf(rows, top) == island
    requires forall i :: 0 <= i < |rows| && IslandOf(rows, i) == island ==>
      rows[s].fromBlock <= rows[i].fromBlock && rows[i].toBlock <= rows[top].toBlock
    ensures IsGroup(rows, island, Range(rows[s].fromBlock, rows[top].toBlock))
  {
    hide IslandOf;
  }

  lemma GroupOfLast(rows: seq<Range>, s: nat)
    requires ValidRows(rows) && LastStart(rows, s)
    ensures IsGroup(rows, IslandOf(rows, s), Range(rows[s].fromBlock, PrevMaxTo(rows, |rows|)))
  {
    hide PrevMaxTo, IslandOf, StartsNew, Ordered, IsGroup;
    PrevMaxBounds(rows, |rows|);
    TopRowIsInLastIsland(rows, s);
    var top :| s <= top < |rows| && rows[top].toBlock == PrevMaxTo(rows, |rows|);
    IslandsFromLast(rows, s, top);
    forall i | 0 <= i < |rows| && IslandOf(rows, i) == IslandOf(rows, s)
      ensures rows[s].fromBlock <= rows[i].fromBlock && rows[i].toBlock <= rows[top].toBlock
    {
      IslandsFromLast(rows, s, i);
      FirstsGrow(rows, s, i);
    }
    GroupByIndex(rows, IslandOf(rows, s), s, top);
  }

  lemma AllGenesis(rows: seq<Range>, r: Range, s: nat, island: nat)
    requires ValidRows(rows) && LastStart(rows, s) && PrevMaxTo(rows, s) == 0 && IsGroup(rows, island, r)
    requires r.toBlock == 0 && PrevMaxTo(rows, |rows|) == 0
    ensures r == Range(0, 0) && forall i :: 0 <= i < |rows| ==> rows[i] == r
  {
    PrevMaxBounds(rows, |rows|);
  }

  lemma LastIslandIsAnswer(rows: seq<Range>, s: nat)
    requires ValidRows(rows) && LastStart(rows, s)
    ensures IsAnswer(rows, Range(rows[s].fromBlock, PrevMaxTo(rows, |rows|)))
  {
    GroupOfLast(rows, s);
    PrevMaxBounds(rows, |rows|);
  }

  /** Just before the last island nothing is covered, but for block 0 before block 1. */
  lemma BeforeStretch(rows: seq<Range>, s: nat)
    requires ValidRows(rows) && LastStart(rows, s) && Covered(rows, rows[s].fromBlock - 1)
    ensures rows[s].fromBlock == 1 && s > 0 && PrevMaxTo(rows, s) == 0
  {
    assert StartsNew(rows, s);
    hide LastStart, PrevMaxTo, Ordered;
    PrevMaxBounds(rows, s);
    var i :| 0 <= i < |rows| && Within(rows[i], rows[s].fromBlock - 1);
    if i >= s { FirstsGrow(rows, s, i); }
  }

  lemma {:induction false} FirstFromOne(rows: seq<Range>, k: nat) returns (m: nat)
    requires ValidRows(rows) && k < |rows| && rows[k].fromBlock == 1
    ensures m <= k && rows[m].fromBlock == 1 && forall i :: 0 <= i < m ==> rows[i].fromBlock == 0
  {
    if k == 0 || rows[k-1].fromBlock == 0 {
      m := k;
    } else {
      m := FirstFromOne(rows, k - 1);
    }
  }

  /** A hole below the last island splits the merged list. */
  lemma HoleSplits(rows: seq<Range>, merged: seq<Range>, s: nat)
    requires ValidRows(rows) && LastStart(rows, s) && SameHeights(merged, rows)
    requires PrevMaxTo(rows, s) > 0 && Covered(rows, 0)
    ensures |merged| > 1
  {
    PrevMaxBounds(rows, s);
    var gap := PrevMaxTo(rows, s) + 1;
    assert !Covered(rows, gap) && !Covered(merged, gap);
    assert Within(rows[s], rows[s].fromBlock) && Covered(merged, rows[s].fromBlock);
    var i :| 0 <= i < |merged| && Within(merged[i], 0);
    var j :| 0 <= j < |merged| && Within(merged[j], rows[s].fromBlock);
    assert !Within(merged[i], gap);
    assert i != j;
  }

  /** In a genesis split the last island is the one that starts at block 1. */
  lemma SplitStartsAtOne(rows: seq<Range>, merged: seq<Range>, s: nat)
    requires ValidRows(rows) && LastStart(rows, s) && SameHeights(merged, rows) && GenesisSplit(rows, merged)
    ensures rows[s].fromBlock == 1 && Covered(rows, 0)
  {
    var k :| 0 <= k < |rows| && rows[k].fromBlock == 1;
    var z :| 0 <= z < |rows| && rows[z] == Range(0, 0);
    assert Within(rows[z], 0);
    var m := FirstFromOne(rows, k);
    forall i | 0 <= i < m
      ensures rows[i] == Range(0, 0)
    {
      assert rows[i] in rows;
    }
    PrevMaxBounds(rows, m);
    assert StartsNew(rows, m);
    PrevMaxBounds(rows, s);
    if m < s { HoleSplits(rows, merged, s); }
  }

  /** A row that covers everything from its first to the last covered height ends the canonical list. */
  lemma LastMerged(rows: seq<Range>, merged: seq<Range>, f: int, t: int)
    requires Canonical(merged) && SameHeights(merged, rows) && f <= t
    requires forall h :: f <= h <= t ==> Covered(rows, h)
    requires forall h :: h > t ==> !Covered(rows, h)
    ensures merged != [] && merged[|merged|-1].toBlock == t && merged[|merged|-1].fromBlock <= f
    ensures merged[|merged|-1].fromBlock < f ==> Covered(rows, f - 1)
  {
    assert Covered(merged, t);
    var last := merged[|merged|-1];
    var j :| 0 <= j < |merged| && Within(merged[j], t);
    assert Within(last, last.toBlock) && Covered(merged, last.toBlock);
    assert forall i :: 0 <= i < |merged| ==> !Within(merged[i], last.fromBlock - 1);
    assert !Covered(merged, last.fromBlock - 1);
    if last.fromBlock < f {
      assert Within(last, f - 1) && Covered(merged, f - 1);
    }
  }

  lemma GenesisAlone(rows: seq<Range>, merged: seq<Range>)
    requires rows != [] && Canonical(merged) && SameHeights(merged, rows) && forall i :: 0 <= i < |rows| ==>
      rows[i] == Range(0, 0)
    ensures merged == [Range(0, 0)]
  {
    forall h
      ensures Covered(rows, h) <==> Covered([Range(0, 0)], h)
    {
      if h == 0 { assert Within(rows[0], 0) && Within([Range(0, 0)][0], 0); }
    }
    CanonicalIsUnique(merged, [Range(0, 0)]);
  }

  lemma OnlyMerged(rows: seq<Range>, merged: seq<Range>)
    requires ValidRows(rows) && Canonical(merged) && SameHeights(merged, rows)
    requires merged != [] && merged[|merged|-1].fromBlock <= 0
    ensures |merged| == 1
  {
    assert Within(merged[0], merged[0].fromBlock) && Covered(merged, merged[0].fromBlock);
    var i :| 0 <= i < |rows| && Within(rows[i], merged[0].fromBlock);
    assert merged[0].fromBlock >= 0;
  }

  /** The query returns the last merged range, except in a genesis split. */
  lemma AnswerIsLastMerged(rows: seq<Range>, merged: seq<Range>, r: Range)
    requires ValidRows(rows) && IsAnswer(rows, r)
    requires Canonical(merged) && SameHeights(merged, rows)
    ensures merged != []
    ensures r == merged[|merged|-1] <==> !GenesisSplit(rows, merged)
  {
    hide IsAnswer, GenesisSplit, Ordered;
    var s := LastStartExists(rows, |rows|);
    AnswerIsLastIsland(rows, r, s);
    if forall i :: 0 <= i < |rows| ==> rows[i] == Range(0, 0) {
      GenesisAlone(rows, merged);
      NoSplit(rows, merged);
      PrevMaxBounds(rows, |rows|);
    } else {
      var f, t := rows[s].fromBlock, PrevMaxTo(rows, |rows|);
      PrevMaxBounds(rows, |rows|);
      assert rows[s].toBlock <= t;
      forall h | f <= h <= t ensures Covered(rows, h) { StretchIsUnbroken(rows, s, |rows|, h); }
      LastMerged(rows, merged, f, t);
      SplitExactly(rows, merged, s);
    }
  }

  lemma NoSplit(rows: seq<Range>, merged: seq<Range>)
    requires forall i :: 0 <= i < |rows| ==> rows[i] == Range(0, 0)
    ensures !GenesisSplit(rows, merged)
  {
  }

  lemma SplitExactly(rows: seq<Range>, merged: seq<Range>, s: nat)
    requires ValidRows(rows) && LastStart(rows, s) && Canonical(merged) && SameHeights(merged, rows)
    requires merged != [] && merged[|merged|-1].fromBlock <= rows[s].fromBlock
    requires merged[|merged|-1].fromBlock < rows[s].fromBlock ==> Covered(rows, rows[s].fromBlock - 1)
    ensures merged[|merged|-1].fromBlock < rows[s].fromBlock <==> GenesisSplit(rows, merged)
  {
    if merged[|merged|-1].fromBlock < rows[s].fromBlock {
      BeforeStretch(rows, s);
      OnlyMerged(rows, merged);
      PrevMaxBounds(rows, s);
      assert rows[0] == Range(0, 0) && rows[0] in rows;
      assert rows[s] in rows;
    }
    if GenesisSplit(rows, merged) {
      SplitStartsAtOne(rows, merged, s);
      assert Covered(merged, 0);
    }
  }

  lemma ZeroToNine()
    ensures SameHeights([Range(0, 9)], [Range(0, 0), Range(1, 9)])
  {
    var rows := [Range(0, 0), Range(1, 9)];
    forall h
      ensures Covered([Range(0, 9)], h) <==> Covered(rows, h)
    {
      assert Within([Range(0, 9)][0], h) <==> 0 <= h <= 9;
      assert Within(rows[0], h) <==> h == 0;
      assert Within(rows[1], h) <==> 1 <= h <= 9;
    }
  }

  /** The split does happen: ranges 0-0 and 1-9 merge to 0-9, and the page shows 1-9. */
  lemma SplitHappens()
    ensures var rows := [Range(0, 0), Range(1, 9)];
            ValidRows(rows) && IsAnswer(rows, Range(1, 9)) && Canonical([Range(0, 9)])
              && SameHeights([Range(0, 9)], rows)
  {
    hide IsAnswer, SameHeights;
    var rows := [Range(0, 0), Range(1, 9)];
    assert PrevMaxTo(rows, 1) == 0;
    assert PrevMaxTo(rows, 2) == 9;
    LastIslandIsAnswer(rows, 1);
    ZeroToNine();
  }
}
