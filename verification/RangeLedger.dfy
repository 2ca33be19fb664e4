/** What a completed range vouches for. */
module RangeLedger {
  // The status table, its writers, and the hash chain across finalizations.
  import opened Options
  import opened BlockRanges

  datatype RawBlock = RawBlock(hash: string, parent: string)

  datatype Status = Running | Completed | Failed

  /** The key of the ranges table, which replaces by it. */
  datatype RangeKey = RangeKey(pipeline: string, range: Range)

  datatype RangeRow = RangeRow(status: Status, firstHash: string, firstParentHash: string, lastHash: string,
                               blockCount: nat, expected: nat, brokenLinks: nat)

  datatype Problem = WrongCount | WrongMin | WrongMax | BrokenLinks | PreviousMismatch | NextMismatch | Crashed

  datatype Failure = Failure(key: RangeKey, reason: seq<Problem>)

  /** The raw blocks by height, the ranges table, and the append-only failure log. */
  datatype Ledger = Ledger(blocks: map<int, RawBlock>, ranges: map<RangeKey, RangeRow>, failures: seq<Failure>)

  function ExpectedBlockCount(r: Range): nat { if r.toBlock >= r.fromBlock then r.toBlock - r.fromBlock + 1 else 0 }

  function StatusRow(status: Status, key: RangeKey): RangeRow {
    RangeRow(status, "", "", "", 0, ExpectedBlockCount(key.range), 0)
  }

  predicate IsCompleted(ranges: map<RangeKey, RangeRow>, key: RangeKey) {
    key in ranges && ranges[key].status == Completed
  }

  function MarkRunning(l: Ledger, key: RangeKey): Ledger {
    if IsCompleted(l.ranges, key) then l else l.(ranges := l.ranges[key := StatusRow(Running, key)])
  }

  function MarkFailed(l: Ledger, key: RangeKey, reason: seq<Problem>): Ledger {
    if IsCompleted(l.ranges, key) then l
    else l.(ranges := l.ranges[key := StatusRow(Failed, key)], failures := l.failures + [Failure(key, reason)])
  }

  /** Of all tables and keys, a mark touches at most the row of its own key. */
  ghost predicate OnlyRow(l: Ledger, l': Ledger, key: RangeKey) {
    l'.blocks == l.blocks && key in l'.ranges
    && forall k | k != key :: (k in l'.ranges <==> k in l.ranges) && (k in l.ranges ==> l'.ranges[k] == l.ranges[k])
  }

  ghost predicate IsDone(l: Ledger, key: RangeKey) { key in l.ranges && l.ranges[key].status.Completed? }

  /** A row that says only which range is meant: no hashes, no blocks, and the width of the range. */
  ghost predicate OnlyExpects(row: RangeRow, r: Range) {
    && row.firstHash == "" && row.firstParentHash == "" && row.lastHash == ""
    && row.blockCount == 0 && row.brokenLinks == 0
    && (r.fromBlock <= r.toBlock ==> r.fromBlock + row.expected == r.toBlock + 1)
    && (r.toBlock < r.fromBlock ==> row.expected == 0)
  }

  /** A range that is not completed becomes running; a completed one is left as it is. */
  lemma MarksRunning(l: Ledger, key: RangeKey)
    ensures var l' := MarkRunning(l, key);
            && OnlyRow(l, l', key) && l'.failures == l.failures
            && (if IsDone(l, key) then l'.ranges[key] == l.ranges[key]
                else l'.ranges[key].status.Running? && OnlyExpects(l'.ranges[key], key.range))
  {
  }

  /**
   A range that is not completed becomes failed, and the reason is added to the log; a completed one is left
   as it is.
   */
  lemma MarksFailed(l: Ledger, key: RangeKey, reason: seq<Problem>)
    ensures var l' := MarkFailed(l, key, reason);
            && OnlyRow(l, l', key)
            && (if IsDone(l, key) then l'.ranges[key] == l.ranges[key] && l'.failures == l.failures
                else && l'.ranges[key].status.Failed? && OnlyExpects(l'.ranges[key], key.range)
                     && |l'.failures| == |l.failures| + 1 && l.failures <= l'.failures
                     && l'.failures[|l.failures|].key == key && l'.failures[|l.failures|].reason == reason)
  {
  }

  // ---------------------------------------------------------------- what finalization reads

  /** The heights of a range that have a block. */
  function Heights(blocks: map<int, RawBlock>, r: Range): set<int> { set h <- blocks.Keys | Within(r, h) }

  /** `min` and `max` over no rows coalesce to zero. */
  ghost predicate IsLeast(s: set<int>, m: int) { (s == {} && m == 0) || (m in s && forall h <- s :: m <= h) }

  ghost predicate IsGreatest(s: set<int>, m: int) { (s == {} && m == 0) || (m in s && forall h <- s :: h <= m) }

  /** Heights whose block names another parent than the block below it. */
  function BrokenAt(blocks: map<int, RawBlock>, r: Range): set<int> {
    set h <- blocks.Keys | r.fromBlock <= h < r.toBlock && h + 1 in blocks && blocks[h + 1].parent != blocks[h].hash
  }

  datatype Stats = Stats(count: nat, min: int, max: int, firstHash: string, firstParentHash: string, lastHash: string,
                         broken: nat)

  function HashAt(blocks: map<int, RawBlock>, s: set<int>, h: int): string {
    if h in s && h in blocks then blocks[h].hash else ""
  }

  function ParentAt(blocks: map<int, RawBlock>, s: set<int>, h: int): string {
    if h in s && h in blocks then blocks[h].parent else ""
  }

  ghost predicate AreStats(blocks: map<int, RawBlock>, r: Range, st: Stats) {
    var s := Heights(blocks, r);
    && st.count == |s| && IsLeast(s, st.min) && IsGreatest(s, st.max)
    && st.firstHash == HashAt(blocks, s, st.min) && st.firstParentHash == ParentAt(blocks, s, st.min)
    && st.lastHash == HashAt(blocks, s, st.max)
    && st.broken == |BrokenAt(blocks, r)|
  }

  /**
   `LIMIT 1` over the completed rows that end just below, or start just above, the range: any such row, if
   there is one.
   */
  ghost predicate IsPrevious(ranges: map<RangeKey, RangeRow>, r: Range, pick: Option<RangeKey>) {
    if r.fromBlock <= 0 then pick.None?
    else
      && (pick.Some? ==> IsCompleted(ranges, pick.value) && pick.value.range.toBlock == r.fromBlock - 1)
      && (pick.None? ==> forall k <- ranges :: IsCompleted(ranges, k) ==> k.range.toBlock != r.fromBlock - 1)
  }

  ghost predicate IsNext(ranges: map<RangeKey, RangeRow>, r: Range, pick: Option<RangeKey>) {
    && (pick.Some? ==> IsCompleted(ranges, pick.value) && pick.value.range.fromBlock == r.toBlock + 1)
    && (pick.None? ==> forall k <- ranges :: IsCompleted(ranges, k) ==> k.range.fromBlock != r.toBlock + 1)
  }

  function ProblemIf(c: bool, p: Problem): seq<Problem> { if c then [p] else [] }

  function Problems(l: Ledger, r: Range, st: Stats, previous: Option<RangeKey>, next: Option<RangeKey>): seq<Problem>
    requires (previous.Some? ==> previous.value in l.ranges) && (next.Some? ==> next.value in l.ranges)
  {
    ProblemIf(st.count != ExpectedBlockCount(r), WrongCount)
    + ProblemIf(st.min != r.fromBlock, WrongMin)
    + ProblemIf(st.max != r.toBlock, WrongMax)
    + ProblemIf(st.broken > 0, BrokenLinks)
    + ProblemIf(previous.Some? && l.ranges[previous.value].lastHash != st.firstParentHash, PreviousMismatch)
    + ProblemIf(next.Some? && l.ranges[next.value].firstParentHash != st.lastHash, NextMismatch)
  }

  /** What one run of finalization read. */
  datatype Reading = Reading(stats: Stats, previous: Option<RangeKey>, next: Option<RangeKey>)

  ghost predicate IsReading(l: Ledger, r: Range, x: Reading) {
    AreStats(l.blocks, r, x.stats) && IsPrevious(l.ranges, r, x.previous) && IsNext(l.ranges, r, x.next)
  }

  /** `ok` is false when the range is refused. */
  datatype Finalized = Finalized(ledger: Ledger, ok: bool)

  function Finalize(l: Ledger, key: RangeKey, x: Reading): Finalized
    requires (x.previous.Some? ==> x.previous.value in l.ranges) && (x.next.Some? ==> x.next.value in l.ranges)
  {
    if ExpectedBlockCount(key.range) <= 0 then Finalized(l, false)
    else
      var problems := Problems(l, key.range, x.stats, x.previous, x.next);
      if problems != [] then Finalized(MarkFailed(l, key, problems), false)
      else
        var st := x.stats;
        Finalized(l.(ranges := l.ranges[key := RangeRow(Completed, st.firstHash, st.firstParentHash, st.lastHash,
                                                        st.count, ExpectedBlockCount(key.range), st.broken)]), true)
  }

  // ---------------------------------------------------------------- one finalization

  /** The block above names this one as its parent. */
  predicate LinkedAt(blocks: map<int, RawBlock>, h: int) {
    h in blocks && h + 1 in blocks && blocks[h + 1].parent == blocks[h].hash
  }

  /** Every height of the range has a block, each block's parent is the block below it, and the row records its ends. */
  ghost predicate Intact(blocks: map<int, RawBlock>, r: Range, row: RangeRow) {
    && (forall h :: Within(r, h) ==> h in blocks)
    && (forall h :: r.fromBlock <= h < r.toBlock ==> LinkedAt(blocks, h))
    && r.fromBlock <= r.toBlock
    && row.firstHash == blocks[r.fromBlock].hash && row.firstParentHash == blocks[r.fromBlock].parent
    && row.lastHash == blocks[r.toBlock].hash
  }

  function Span(lo: int, hi: int): (s: set<int>)
    ensures forall h :: h in s <==> lo <= h <= hi
    decreases hi - lo + 1
  {
    if lo > hi then {} else Span(lo, hi - 1) + {hi}
  }

  lemma {:induction false} SpanSize(lo: int, hi: int)
    requires lo <= hi + 1
    ensures |Span(lo, hi)| == hi - lo + 1
    decreases hi - lo + 1
  {
    if lo <= hi {
      SpanSize(lo, hi - 1);
    }
  }

  lemma {:induction false} SubsetSize<T>(a: set<T>, b: set<T>)
    requires a <= b
    ensures |a| <= |b| && (|a| == |b| ==> a == b)
    decreases |a|
  {
    if a != {} {
      var x :| x in a;
      SubsetSize(a - {x}, b - {x});
      assert a == (a - {x}) + {x} && b == (b - {x}) + {x};
    } else if b != {} {
      var y :| y in b;
      assert b == (b - {y}) + {y};
    }
  }

  /** As many heights as the range is wide: every one of them is there. */
  lemma FullCountMeansAllPresent(blocks: map<int, RawBlock>, r: Range)
    requires r.fromBlock <= r.toBlock
    ensures |Heights(blocks, r)| == ExpectedBlockCount(r) <==> forall h :: Within(r, h) ==> h in blocks
  {
    SpanSize(r.fromBlock, r.toBlock);
    SubsetSize(Heights(blocks, r), Span(r.fromBlock, r.toBlock));
    if forall h :: Within(r, h) ==> h in blocks {
      assert Heights(blocks, r) == Span(r.fromBlock, r.toBlock);
    } else {
      var h :| Within(r, h) && h !in blocks;
      assert h in Span(r.fromBlock, r.toBlock) && h !in Heights(blocks, r);
    }
  }

  /** Finalization completes a range exactly when its blocks are intact and both recorded neighbours agree. */
  lemma FinalizesExactly(l: Ledger, key: RangeKey, x: Reading)
    requires IsReading(l, key.range, x)
    ensures var f, r := Finalize(l, key, x), key.range;
            f.ok <==> && r.fromBlock <= r.toBlock
                      && (forall h :: Within(r, h) ==> h in l.blocks)
                      && (forall h :: r.fromBlock <= h < r.toBlock ==> LinkedAt(l.blocks, h))
                      && (x.previous.Some? ==> l.ranges[x.previous.value].lastHash == l.blocks[r.fromBlock].parent)
                      && (x.next.Some? ==> l.ranges[x.next.value].firstParentHash == l.blocks[r.toBlock].hash)
    ensures Finalize(l, key, x).ok ==> Intact(l.blocks, key.range, Finalize(l, key, x).ledger.ranges[key])
    ensures Finalize(l, key, x).ok ==>
              var row, width := Finalize(l, key, x).ledger.ranges[key], key.range.toBlock - key.range.fromBlock + 1;
              row.status.Completed? && row.blockCount == width == row.expected && row.brokenLinks == 0
  {
    var r, s := key.range, Heights(l.blocks, key.range);
    if r.fromBlock <= r.toBlock {
      FullCountMeansAllPresent(l.blocks, r);
      if forall h :: Within(r, h) ==> h in l.blocks {
        assert r.fromBlock in s && r.toBlock in s;
        NoneBroken(l.blocks, r);
      }
    }
  }

  lemma BrokenOrLinked(blocks: map<int, RawBlock>, r: Range, h: int)
    requires (forall i :: Within(r, i) ==> i in blocks) && r.fromBlock <= h < r.toBlock
    ensures LinkedAt(blocks, h) <==> h !in BrokenAt(blocks, r)
  {
    assert Within(r, h) && Within(r, h + 1);
  }

  lemma NoneBroken(blocks: map<int, RawBlock>, r: Range)
    requires forall h :: Within(r, h) ==> h in blocks
    ensures |BrokenAt(blocks, r)| == 0 <==> forall h :: r.fromBlock <= h < r.toBlock ==> LinkedAt(blocks, h)
  {
    var broken := BrokenAt(blocks, r);
    assert forall h <- broken :: r.fromBlock <= h < r.toBlock;
    hide BrokenAt, LinkedAt;
    forall h | r.fromBlock <= h < r.toBlock
      ensures LinkedAt(blocks, h) <==> h !in broken
    {
      BrokenOrLinked(blocks, r, h);
    }
    if |broken| == 0 {
      assert broken == {};
    } else {
      var h :| h in broken;
      assert !LinkedAt(blocks, h);
    }
  }

  // ---------------------------------------------------------------- runs

  /** One atomic step; a write adds or replaces raw blocks. */
  datatype Action =
    | Write(blocks: map<int, RawBlock>)
    | Start(key: RangeKey)
    | Fail(key: RangeKey, reason: seq<Problem>)
    | Finish(key: RangeKey, reading: Reading)

  /** Heights are unsigned, and a finalization reads the tables as they are. */
  ghost predicate Enabled(l: Ledger, a: Action) {
    match a
    case Write(blocks) => forall h <- blocks :: h >= 0
    case Finish(key, x) => IsReading(l, key.range, x)
    case _ => true
  }

  ghost function Next(l: Ledger, a: Action): Ledger
    requires Enabled(l, a)
  {
    match a
    case Write(blocks) => l.(blocks := l.blocks + blocks)
    case Start(key) => MarkRunning(l, key)
    case Fail(key, reason) => MarkFailed(l, key, reason)
    case Finish(key, x) => Finalize(l, key, x).ledger
  }

  const EMPTY := Ledger(map[], map[], [])

  ghost predicate IsRun(actions: seq<Action>) {
    actions != [] ==>
      var before := actions[..|actions|-1];
      IsRun(before) && Enabled(After(before), actions[|actions|-1])
  }

  /** The tables after a run from empty ones. */
  ghost function After(actions: seq<Action>): Ledger {
    if actions == [] then EMPTY
    else
      var before := After(actions[..|actions|-1]);
      if Enabled(before, actions[|actions|-1]) then Next(before, actions[|actions|-1]) else before
  }

  /** Some earlier point of the run at which the range was intact and its row was written. */
  ghost predicate Vouched(actions: seq<Action>, k: RangeKey, row: RangeRow) {
    exists i :: 0 <= i <= |actions| && Intact(After(actions[..i]).blocks, k.range, row)
  }

  lemma StepChangesCompleted(l: Ledger, a: Action, k: RangeKey)
    requires Enabled(l, a)
    ensures IsCompleted(l.ranges, k) ==> IsCompleted(Next(l, a).ranges, k)
    ensures IsCompleted(Next(l, a).ranges, k) ==>
              (IsCompleted(l.ranges, k) && Next(l, a).ranges[k] == l.ranges[k])
                || Intact(l.blocks, k.range, Next(l, a).ranges[k])
  {
    if a.Finish? {
      FinalizesExactly(l, a.key, a.reading);
    }
  }

  /** Every completed range was intact when it was finalized: all heights present, all inner parent links right. */
  lemma {:induction false} CompletedRangesWereIntact(actions: seq<Action>, k: RangeKey)
    requires IsRun(actions) && IsCompleted(After(actions).ranges, k)
    ensures Vouched(actions, k, After(actions).ranges[k])
  {
    if actions != [] {
      var before, a := actions[..|actions|-1], actions[|actions|-1];
      var l, row := After(before), After(actions).ranges[k];
      StepChangesCompleted(l, a, k);
      hide Next, Intact;
      if IsCompleted(l.ranges, k) && row == l.ranges[k] {
        CompletedRangesWereIntact(before, k);
        var i :| 0 <= i <= |before| && Intact(After(before[..i]).blocks, k.range, row);
        assert actions[..i] == before[..i];
      } else {
        assert Intact(After(actions[..|before|]).blocks, k.range, row);
      }
    }
  }

  /** Nothing later in a run undoes a completed range: not a mark, not a failed finalization. */
  lemma {:induction false} CompletedStays(actions: seq<Action>, i: nat, k: RangeKey)
    requires IsRun(actions) && i <= |actions| && IsCompleted(After(actions[..i]).ranges, k)
    ensures IsCompleted(After(actions).ranges, k)
    decreases |actions|
  {
    if i == |actions| {
      assert actions[..i] == actions;
    } else {
      var before := actions[..|actions|-1];
      assert before[..i] == actions[..i];
      CompletedStays(before, i, k);
      StepChangesCompleted(After(before), actions[|actions|-1], k);
    }
  }

  /**
   Completed ranges that end just below the range recorded one last hash, and those that start just
   above it one parent hash: the check reads one of each, and it does not matter which.
   */
  ghost predicate NeighboursAgree(ranges: map<RangeKey, RangeRow>, r: Range) {
    && (forall k, k' | IsCompleted(ranges, k) && IsCompleted(ranges, k') ::
          k.range.toBlock + 1 == r.fromBlock == k'.range.toBlock + 1 ==> ranges[k].lastHash == ranges[k'].lastHash)
    && (forall k, k' | IsCompleted(ranges, k) && IsCompleted(ranges, k') ::
          k.range.fromBlock - 1 == r.toBlock == k'.range.fromBlock - 1 ==>
            ranges[k].firstParentHash == ranges[k'].firstParentHash)
  }

  ghost predicate Sized(ranges: map<RangeKey, RangeRow>) {
    forall k | IsCompleted(ranges, k) :: 0 <= k.range.fromBlock <= k.range.toBlock
  }

  /** Where two completed ranges abut, the upper one's first block names the lower one's last block as its parent. */
  ghost predicate Linked(ranges: map<RangeKey, RangeRow>) {
    forall k, k' | IsCompleted(ranges, k) && IsCompleted(ranges, k') ::
      k.range.toBlock + 1 == k'.range.fromBlock ==> ranges[k].lastHash == ranges[k'].firstParentHash
  }

  lemma FinishLinks(l: Ledger, key: RangeKey, x: Reading, k: RangeKey)
    requires IsReading(l, key.range, x) && Finalize(l, key, x).ok
    requires NeighboursAgree(l.ranges, key.range) && Sized(l.ranges) && IsCompleted(l.ranges, k)
      && 0 <= key.range.fromBlock
    ensures var ranges := Finalize(l, key, x).ledger.ranges;
            && (k.range.toBlock + 1 == key.range.fromBlock ==> l.ranges[k].lastHash == ranges[key].firstParentHash)
            && (key.range.toBlock + 1 == k.range.fromBlock ==> ranges[key].lastHash == l.ranges[k].firstParentHash)
  {
    assert x.previous.Some? ==> IsCompleted(l.ranges, x.previous.value);
    assert x.next.Some? ==> IsCompleted(l.ranges, x.next.value);
  }

  /** Nothing that abuts the range is the range. */
  lemma LinksMeanAgreement(l: Ledger, key: RangeKey, x: Reading)
    requires IsReading(l, key.range, x) && Finalize(l, key, x).ok && key.range.fromBlock <= key.range.toBlock
    requires Linked(Finalize(l, key, x).ledger.ranges)
    ensures NeighboursAgree(l.ranges, key.range)
  {
    FinishWrites(l, key, x);
    var ranges := Finalize(l, key, x).ledger.ranges;
    assert IsCompleted(ranges, key);
    hide IsReading, Finalize;
    assert forall k | IsCompleted(l.ranges, k) && k != key :: IsCompleted(ranges, k) && ranges[k] == l.ranges[k];
    assert forall k | IsCompleted(l.ranges, k) ::
        (k.range.toBlock + 1 == key.range.fromBlock ==> l.ranges[k].lastHash == ranges[key].firstParentHash)
        && (key.range.toBlock + 1 == k.range.fromBlock ==> ranges[key].lastHash == l.ranges[k].firstParentHash);
  }

  /** A finalization keeps the completed ranges linked exactly when the neighbours it could have read agree. */
  lemma FinishKeepsLinksExactly(l: Ledger, key: RangeKey, x: Reading)
    requires IsReading(l, key.range, x) && Finalize(l, key, x).ok
    requires Sized(l.ranges) && Linked(l.ranges) && forall h <- l.blocks :: h >= 0
    ensures Sized(Finalize(l, key, x).ledger.ranges)
    ensures Linked(Finalize(l, key, x).ledger.ranges) <==> NeighboursAgree(l.ranges, key.range)
  {
    var ranges := Finalize(l, key, x).ledger.ranges;
    FinalizesExactly(l, key, x);
    assert Within(key.range, key.range.fromBlock);
    FinishWrites(l, key, x);
    if NeighboursAgree(l.ranges, key.range) {
      forall k | IsCompleted(l.ranges, k)
        ensures k.range.toBlock + 1 == key.range.fromBlock ==> l.ranges[k].lastHash == ranges[key].firstParentHash
        ensures key.range.toBlock + 1 == k.range.fromBlock ==> ranges[key].lastHash == l.ranges[k].firstParentHash
      {
        FinishLinks(l, key, x, k);
      }
      hide IsReading, Finalize, NeighboursAgree;
      NewLinks(l.ranges, key, ranges[key]);
    } else if Linked(ranges) {
      LinksMeanAgreement(l, key, x);
    }
  }

  lemma NewLinks(ranges: map<RangeKey, RangeRow>, key: RangeKey, row: RangeRow)
    requires Sized(ranges) && Linked(ranges) && 0 <= key.range.fromBlock <= key.range.toBlock
    requires forall k | IsCompleted(ranges, k) ::
      (k.range.toBlock + 1 == key.range.fromBlock ==> ranges[k].lastHash == row.firstParentHash)
      && (key.range.toBlock + 1 == k.range.fromBlock ==> row.lastHash == ranges[k].firstParentHash)
    ensures Sized(ranges[key := row]) && Linked(ranges[key := row])
  {
    var next := ranges[key := row];
    forall k, k' | IsCompleted(next, k) && IsCompleted(next, k') && k.range.toBlock + 1 == k'.range.fromBlock
      ensures next[k].lastHash == next[k'].firstParentHash
    {
      assert k == key || IsCompleted(ranges, k);
      assert k' == key || IsCompleted(ranges, k');
    }
  }

  /** A step that completes nothing new, or repeats what is recorded, keeps the links. */
  lemma SameCompleted(ranges: map<RangeKey, RangeRow>, next: map<RangeKey, RangeRow>)
    requires Sized(ranges) && Linked(ranges)
    requires forall k | IsCompleted(next, k) :: IsCompleted(ranges, k) && next[k] == ranges[k]
    ensures Sized(next) && Linked(next)
  {
  }

  /** Before a step that completes a range, the neighbours it could have read agree. */
  ghost predicate ReadsAgree(l: Ledger, a: Action)
    requires Enabled(l, a)
  {
    a.Finish? && Finalize(l, a.key, a.reading).ok ==> NeighboursAgree(l.ranges, a.key.range)
  }

  lemma StepKeepsLinksExactly(l: Ledger, a: Action)
    requires Enabled(l, a) && Sized(l.ranges) && Linked(l.ranges)
    requires forall h <- l.blocks :: h >= 0
    ensures Sized(Next(l, a).ranges)
    ensures Linked(Next(l, a).ranges) <==> ReadsAgree(l, a)
  {
    hide AreStats, NeighboursAgree, Sized, Linked, Problems;
    if a.Finish? && Finalize(l, a.key, a.reading).ok {
      FinishKeepsLinksExactly(l, a.key, a.reading);
    } else {
      SameCompleted(l.ranges, Next(l, a).ranges);
    }
  }

  lemma FinishWrites(l: Ledger, key: RangeKey, x: Reading)
    requires IsReading(l, key.range, x) && Finalize(l, key, x).ok
    ensures var ranges := Finalize(l, key, x).ledger.ranges;
            key in ranges && ranges == l.ranges[key := ranges[key]]
  {
  }

  lemma StepStaysUnsigned(l: Ledger, a: Action)
    requires Enabled(l, a) && forall h <- l.blocks :: h >= 0
    ensures forall h <- Next(l, a).blocks :: h >= 0
  {
    hide IsReading, Problems;
  }

  lemma {:induction false} PrefixIsRun(actions: seq<Action>, i: nat)
    requires IsRun(actions) && i < |actions|
    ensures IsRun(actions[..i]) && Enabled(After(actions[..i]), actions[i])
    ensures After(actions[..i + 1]) == Next(After(actions[..i]), actions[i])
  {
    if i < |actions| - 1 {
      var before := actions[..|actions|-1];
      PrefixIsRun(before, i);
      assert before[..i] == actions[..i] && before[..i + 1] == actions[..i + 1];
    } else {
      assert actions[..i + 1] == actions;
    }
  }

  /** The range a run's step completes, if any, has neighbours that agree. */
  ghost predicate StepAgrees(actions: seq<Action>, i: nat) {
    i < |actions| && Enabled(After(actions[..i]), actions[i]) && ReadsAgree(After(actions[..i]), actions[i])
  }

  lemma {:induction false} RunStaysSized(actions: seq<Action>)
    requires IsRun(actions)
    ensures Sized(After(actions).ranges) && forall h <- After(actions).blocks :: h >= 0
  {
    if actions != [] {
      var before, a := actions[..|actions|-1], actions[|actions|-1];
      RunStaysSized(before);
      StepStaysSized(After(before), a);
      StepStaysUnsigned(After(before), a);
    }
  }

  lemma StepStaysSized(l: Ledger, a: Action)
    requires Enabled(l, a) && Sized(l.ranges) && forall h <- l.blocks :: h >= 0
    ensures Sized(Next(l, a).ranges)
  {
    if a.Finish? && Finalize(l, a.key, a.reading).ok {
      FinalizesExactly(l, a.key, a.reading);
      FinishWrites(l, a.key, a.reading);
      assert Within(a.key.range, a.key.range.fromBlock);
    }
  }

  lemma {:induction false} AgreementLinks(actions: seq<Action>, n: nat)
    requires IsRun(actions) && n <= |actions| && forall i :: 0 <= i < n ==> StepAgrees(actions, i)
    ensures Linked(After(actions[..n]).ranges)
  {
    if n > 0 {
      AgreementLinks(actions, n - 1);
      PrefixIsRun(actions, n - 1);
      RunStaysSized(actions[..n - 1]);
      assert StepAgrees(actions, n - 1);
      hide After, IsRun, Linked, Sized, ReadsAgree, Next, Enabled;
      StepKeepsLinksExactly(After(actions[..n - 1]), actions[n - 1]);
    }
  }

  lemma LinkedStepAgrees(actions: seq<Action>, i: nat)
    requires IsRun(actions) && i < |actions|
    requires Linked(After(actions[..i]).ranges) && Linked(After(actions[..i + 1]).ranges)
    ensures StepAgrees(actions, i)
  {
    PrefixIsRun(actions, i);
    RunStaysSized(actions[..i]);
    hide After, IsRun, Linked, Sized, ReadsAgree, Next, Enabled;
    StepKeepsLinksExactly(After(actions[..i]), actions[i]);
  }

  /**
   Abutting completed ranges form one hash chain throughout a run exactly when, at each finalization that
   succeeds, the completed ranges on either side of it agree on the hash at the boundary.
   */
  lemma AbuttingRangesAreLinked(actions: seq<Action>)
    requires IsRun(actions)
    ensures (forall n :: 0 <= n <= |actions| ==> Linked(After(actions[..n]).ranges))
       <==> (forall i :: 0 <= i < |actions| ==> StepAgrees(actions, i))
  {
    hide After, IsRun, Linked, StepAgrees;
    if forall i :: 0 <= i < |actions| ==> StepAgrees(actions, i) {
      forall n | 0 <= n <= |actions| ensures Linked(After(actions[..n]).ranges) {
        AgreementLinks(actions, n);
      }
    }
    if forall n :: 0 <= n <= |actions| ==> Linked(After(actions[..n]).ranges) {
      forall i | 0 <= i < |actions| ensures StepAgrees(actions, i) {
        assert Linked(After(actions[..i]).ranges) && Linked(After(actions[..i + 1]).ranges);
        LinkedStepAgrees(actions, i);
      }
    }
  }

  // ---------------------------------------------------------------- two pipelines over one block

  function Lone(hash: string, parent: string, h: int): Stats { Stats(1, h, h, hash, parent, hash, 0) }

  function LoneRow(hash: string, parent: string): RangeRow { RangeRow(Completed, hash, parent, hash, 1, 1, 0) }

  lemma LoneFinishes(l: Ledger, key: RangeKey, x: Reading)
    requires key.range.fromBlock == key.range.toBlock && key.range.toBlock in l.blocks && IsReading(l, key.range, x)
    requires var b := l.blocks[key.range.toBlock]; x.stats == Lone(b.hash, b.parent, key.range.toBlock)
    requires x.previous.Some? ==> l.ranges[x.previous.value].lastHash == x.stats.firstParentHash
    requires x.next.None?
    ensures Finalize(l, key, x) == Finalized(l.(ranges := l.ranges[key :=
                                                                   LoneRow(x.stats.firstHash,
                                                                       x.stats.firstParentHash)]), true)
  {
  }

  lemma LoneStats(blocks: map<int, RawBlock>, h: int)
    requires h in blocks
    ensures AreStats(blocks, Range(h, h), Lone(blocks[h].hash, blocks[h].parent, h))
  {
    assert Heights(blocks, Range(h, h)) == {h};
    assert BrokenAt(blocks, Range(h, h)) == {};
  }

  /** Block 4 is finalized for one pipeline, replaced, finalized for another; block 5 then links to one of the two. */
  const TWINS: seq<Action> := [
    Write(map[4 := RawBlock("w", "v")]), Finish(RangeKey("a", Range(4, 4)), Reading(Lone("w", "v", 4), None, None)),
    Write(map[4 := RawBlock("y", "x"), 5 := RawBlock("z", "w")]),
    Finish(RangeKey("b", Range(4, 4)), Reading(Lone("y", "x", 4), None, None)),
    Finish(RangeKey("a", Range(5, 5)), Reading(Lone("z", "w", 5), Some(RangeKey("a", Range(4, 4))), None))]

  function TwinRanges(n: nat): map<RangeKey, RangeRow> {
    var a, b, next := RangeKey("a", Range(4, 4)), RangeKey("b", Range(4, 4)), RangeKey("a", Range(5, 5));
    if n < 2 then map[]
    else if n < 4 then map[a := LoneRow("w", "v")]
    else if n < 5 then map[a := LoneRow("w", "v"), b := LoneRow("y", "x")]
    else map[a := LoneRow("w", "v"), b := LoneRow("y", "x"), next := LoneRow("z", "w")]
  }

  function TwinLedger(n: nat): Ledger {
    Ledger(if n < 1 then map[] else if n < 3 then map[4 := RawBlock("w", "v")]
           else map[4 := RawBlock("y", "x"), 5 := RawBlock("z", "w")], TwinRanges(n), [])
  }

  lemma TwinStep(n: nat)
    requires n < 5
    ensures Enabled(TwinLedger(n), TWINS[n]) && Next(TwinLedger(n), TWINS[n]) == TwinLedger(n + 1)
  {
    var l := TwinLedger(n);
    assert "a"[0] != "b"[0];
    if TWINS[n].Finish? {
      var h := TWINS[n].key.range.toBlock;
      LoneStats(l.blocks, h);
      assert TWINS[n].key.range == Range(h, h);
      hide AreStats;
      assert IsReading(l, Range(h, h), TWINS[n].reading);
      LoneFinishes(l, TWINS[n].key, TWINS[n].reading);
    }
  }

  lemma {:induction false} TwinRun(n: nat)
    requires n <= 5
    ensures IsRun(TWINS[..n]) && After(TWINS[..n]) == TwinLedger(n)
  {
    if n > 0 {
      TwinRun(n - 1);
      TwinStep(n - 1);
      assert TWINS[..n][..n - 1] == TWINS[..n - 1];
    }
  }

  lemma TwinRangesUnlinked()
    ensures !Linked(TwinRanges(5))
    ensures forall i :: 0 <= i < 5 && TWINS[i].Finish? ==> IsCompleted(TwinRanges(5), TWINS[i].key)
  {
    var b, next := RangeKey("b", Range(4, 4)), RangeKey("a", Range(5, 5));
    assert "a"[0] != "b"[0] && "y"[0] != "w"[0];
    assert IsCompleted(TwinRanges(5), b) && IsCompleted(TwinRanges(5), next);
  }

  /** A run of successful finalizations whose completed ranges abut and are not linked. */
  lemma TwinsBreakLinks()
    ensures IsRun(TWINS) && !Linked(After(TWINS).ranges)
    ensures forall i :: 0 <= i < 5 && TWINS[i].Finish? ==> IsCompleted(After(TWINS).ranges, TWINS[i].key)
  {
    TwinRun(5);
    assert TWINS[..5] == TWINS;
    hide After, IsRun, Next, Enabled;
    TwinRangesUnlinked();
  }
}
