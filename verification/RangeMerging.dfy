/** Merging completed ranges and finding the gaps. */
module RangeMerging {
  import opened Options
  import opened Sorting
  import opened BlockRanges

  predicate Before(a: Range, b: Range) {
    a.fromBlock < b.fromBlock || (a.fromBlock == b.fromBlock && a.toBlock < b.toBlock)
  }

  lemma BeforeIsAnOrder()
    ensures StrictWeakOrder(Before)
  {
  }

  method MergeRawRanges(ranges: seq<Range>) returns (merged: seq<Range>)
    ensures SameHeights(merged, ranges)
    ensures NonEmpty(ranges) ==> Canonical(merged)
  {
    hide Sorted, Canonical, Covered;
    BeforeIsAnOrder();
    SortedIsSorted(Before, ranges);
    var sorted := Sorted(Before, ranges);
    merged := [];
    NothingMerged();
    assert sorted[..0] == [];
    for i := 0 to |sorted|
      invariant SameHeights(merged, sorted[..i])
      invariant merged == [] <==> i == 0
      invariant NonEmpty(ranges) ==> Canonical(merged)
      invariant i > 0 ==> merged[|merged|-1].fromBlock <= sorted[i-1].fromBlock
    {
      var range := sorted[i];
      assert i > 0 ==> !Before(sorted[i], sorted[i-1]);
      assert range in ranges;
      assert sorted[..i+1] == sorted[..i] + [range];
      CoveredSnoc(sorted[..i], range);
      if merged == [] || range.fromBlock > merged[|merged|-1].toBlock + 1 {
        Pushed(merged, range);
        merged := merged + [range];
      } else {
        var last := merged[|merged|-1];
        Extended(merged, range);
        if range.toBlock > last.toBlock {
          merged := merged[|merged|-1 := last.(toBlock := range.toBlock)];
        }
      }
    }
    assert sorted[..|sorted|] == sorted;
    SameElementsSameHeights(sorted, ranges);
  }

  lemma NothingMerged()
    ensures Canonical([])
  {
  }

  lemma Pushed(merged: seq<Range>, range: Range)
    requires merged == [] || range.fromBlock > merged[|merged|-1].toBlock + 1
    ensures forall h :: Covered(merged + [range], h) <==> Covered(merged, h) || Within(range, h)
    ensures Canonical(merged) && range.fromBlock <= range.toBlock ==> Canonical(merged + [range])
  {
    CoveredSnoc(merged, range);
  }

  /** A range that begins inside or right after the last one only moves that one's end. */
  lemma Extended(merged: seq<Range>, range: Range)
    requires merged != [] && merged[|merged|-1].fromBlock <= range.fromBlock <= merged[|merged|-1].toBlock + 1
    ensures var last := merged[|merged|-1];
            var next := if range.toBlock > last.toBlock then merged[|merged|-1 := last.(toBlock := range.toBlock)]
              else merged;
            (forall h :: Covered(next, h) <==> Covered(merged, h) || Within(range, h))
              && (Canonical(merged) ==> Canonical(next))
  {
    var others, last := merged[..|merged|-1], merged[|merged|-1];
    assert merged == others + [last];
    CoveredSnoc(others, last);
    if range.toBlock > last.toBlock {
      var next := merged[|merged|-1 := last.(toBlock := range.toBlock)];
      assert next == others + [last.(toBlock := range.toBlock)];
      CoveredSnoc(others, last.(toBlock := range.toBlock));
    }
    hide Covered;
  }

  lemma SameElementsSameHeights(a: seq<Range>, b: seq<Range>)
    requires forall r :: r in a <==> r in b
    ensures SameHeights(a, b)
  {
    forall h
      ensures Covered(a, h) <==> Covered(b, h)
    {
      if i :| 0 <= i < |a| && Within(a[i], h) {
        assert a[i] in b;
      }
      if i :| 0 <= i < |b| && Within(b[i], h) {
        assert b[i] in a;
      }
    }
  }

  /** The sorted complement of the completed ranges inside the window. */
  ghost predicate IsComplement(missing: seq<Range>, fromBlock: int, toBlock: int, completed: seq<Range>) {
    Canonical(missing) && forall h :: Covered(missing, h) <==> fromBlock <= h <= toBlock && !Covered(completed, h)
  }

  method MissingRawCoverage(fromBlock: int, toBlock: int, completedRanges: seq<Range>) returns (missing: seq<Range>)
    ensures fromBlock <= toBlock && NonEmpty(completedRanges) ==>
      IsComplement(missing, fromBlock, toBlock, completedRanges)
  {
    missing := [];
    var cursor := fromBlock;
    var merged := MergeRawRanges(completedRanges);
    ghost var usual := fromBlock <= toBlock && NonEmpty(completedRanges);
    var i := 0;
    while i < |merged|
      invariant 0 <= i <= |merged| && fromBlock <= cursor
      invariant usual ==> Canonical(missing) && (forall j :: 0 <= j < |missing| ==> missing[j].toBlock + 1 < cursor)
      invariant usual ==> i == 0 || cursor > merged[i-1].toBlock
      invariant usual ==>
        forall h :: (Covered(missing, h) <==> fromBlock <= h < cursor && h <= toBlock && !Covered(merged, h))
      invariant usual ==> cursor <= toBlock
    {
      var range := merged[i];
      ghost var before := missing;
      if range.toBlock >= cursor {
        if range.fromBlock > cursor {
          missing := missing + [Range(cursor, Min(range.fromBlock - 1, toBlock))];
          CoveredSnoc(before, Range(cursor, Min(range.fromBlock - 1, toBlock)));
        }
        if usual { Gap(merged, i, cursor); }
        cursor := Max(cursor, range.toBlock + 1);
        if cursor > toBlock { break; }
      }
      i := i + 1;
    }
    if cursor <= toBlock {
      CoveredSnoc(missing, Range(cursor, toBlock));
      if usual { Tail(merged, cursor); }
      missing := missing + [Range(cursor, toBlock)];
    }
  }

  /** Nothing is covered between the cursor and the next merged range. */
  lemma Gap(merged: seq<Range>, i: nat, cursor: int)
    requires Canonical(merged) && i < |merged| && (i > 0 ==> cursor > merged[i-1].toBlock)
    ensures forall h :: cursor <= h < merged[i].fromBlock ==> !Covered(merged, h)
    ensures forall h :: Within(merged[i], h) ==> Covered(merged, h)
  {
    forall h, j | cursor <= h < merged[i].fromBlock && 0 <= j < |merged|
      ensures !Within(merged[j], h)
    {
      if j < i - 1 { assert merged[j].toBlock + 1 < merged[i-1].fromBlock; }
    }
  }

  lemma Tail(merged: seq<Range>, cursor: int)
    requires Canonical(merged) && (merged == [] || cursor > merged[|merged|-1].toBlock)
    ensures forall h :: cursor <= h ==> !Covered(merged, h)
  {
    forall h, j | cursor <= h && 0 <= j < |merged|
      ensures !Within(merged[j], h)
    {
      if j < |merged| - 1 { assert merged[j].toBlock + 1 < merged[|merged|-1].fromBlock; }
    }
  }

  /** The completed ranges that touch the window, cut to it and merged. */
  method GetCompletedRawRanges(table: seq<Range>, fromBlock: int, toBlock: int) returns (completed: seq<Range>)
    ensures fromBlock <= toBlock && NonEmpty(table) ==> Canonical(completed)
    ensures fromBlock <= toBlock && NonEmpty(table) ==>
      forall h :: Covered(completed, h) <==> fromBlock <= h <= toBlock && Covered(table, h)
  {
    var rows: seq<Range> := [];
    for i := 0 to |table|
      invariant fromBlock <= toBlock && NonEmpty(table) ==> NonEmpty(rows)
      invariant forall h :: Covered(rows, h) <==> fromBlock <= h <= toBlock && Covered(table[..i], h)
    {
      assert table[..i+1] == table[..i] + [table[i]];
      CoveredSnoc(table[..i], table[i]);
      if table[i].toBlock >= fromBlock && table[i].fromBlock <= toBlock {
        var cut := Range(Max(fromBlock, table[i].fromBlock), Min(toBlock, table[i].toBlock));
        CoveredSnoc(rows, cut);
        rows := rows + [cut];
      }
    }
    assert table[..|table|] == table;
    completed := MergeRawRanges(rows);
  }

  /** Accepts a window exactly when every height in it is in a completed range. */
  method AssertFinalizedRawCoverage(table: seq<Range>, fromBlock: int, toBlock: int) returns (ok: bool)
    ensures fromBlock <= toBlock && NonEmpty(table) ==>
      (ok <==> forall h :: fromBlock <= h <= toBlock ==> Covered(table, h))
  {
    var completed := GetCompletedRawRanges(table, fromBlock, toBlock);
    var missing := MissingRawCoverage(fromBlock, toBlock, completed);
    ok := |missing| == 0;
    if fromBlock <= toBlock && NonEmpty(table) && !ok {
      assert Within(missing[0], missing[0].fromBlock);
      assert Covered(missing, missing[0].fromBlock);
    }
  }
}
