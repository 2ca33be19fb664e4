/** Every crash of the raw writer can be made up for. */
module RawProgress {
  // A restart that is not cut off reaches the result of an uninterrupted run.
  import opened Options
  import opened BlockRanges
  import opened RawPipeline
  import opened RawRuns

  // ---------------------------------------------------------------- one flush

  lemma {:induction false} CountChunksAreFew(rows: seq<RawRow>, size: nat)
    requires size > 0
    ensures |CountChunks(rows, size)| <= |rows|
    decreases |rows|
  {
    if rows != [] {
      CountChunksAreFew(rows[Min(size, |rows|)..], size);
    }
  }

  lemma {:induction false} ByteChunksAreFew(chunk: seq<RawRow>, rows: seq<RawRow>, maxRows: nat, maxBytes: nat)
    ensures |ByteChunksFrom(chunk, rows, maxRows, maxBytes)| <= |rows| + (if chunk == [] then 0 else 1)
    decreases |rows|
  {
    if rows != [] {
      if Closes(chunk, rows[0], maxRows, maxBytes) {
        ByteChunksAreFew([rows[0]], rows[1..], maxRows, maxBytes);
      } else {
        ByteChunksAreFew(chunk + [rows[0]], rows[1..], maxRows, maxBytes);
      }
    }
  }

  lemma ChunksAreFew(t: RawTable, rows: seq<RawRow>, limits: Limits)
    requires limits.size > 0
    ensures |ChunksOf(t, rows, limits)| <= |rows|
  {
    CountChunksAreFew(rows, limits.size);
    ByteChunksAreFew([], rows, limits.balanceRows, limits.balanceBytes);
  }

  lemma {:induction false} InsertChunksCompletes(db: RawDb, left: nat, chunks: seq<seq<RawRow>>)
    requires left >= |chunks|
    ensures var o := InsertChunks(db, left, chunks); o.ok && o.left == left - |chunks|
    decreases |chunks|
  {
    if chunks != [] {
      var o := Insert(db, left, chunks[0]);
      InsertChunksCompletes(o.db, o.left, chunks[1..]);
    }
  }

  /** All rows waiting in the listed tables' buffers. */
  function Waiting(b: Buffers, tables: seq<RawTable>): nat {
    if tables == [] then 0 else |BufferOf(b, tables[0])| + Waiting(b, tables[1..])
  }

  lemma {:induction false} FlushCompletes(db: RawDb, left: nat, b: Buffers, tables: seq<RawTable>, limits: Limits)
    requires limits.size > 0 && left >= Waiting(b, tables)
    ensures var o := FlushTables(db, left, b, tables, limits); o.ok && o.left >= left - Waiting(b, tables)
    decreases |tables|
  {
    if tables != [] {
      var chunks := ChunksOf(tables[0], BufferOf(b, tables[0]), limits);
      ChunksAreFew(tables[0], BufferOf(b, tables[0]), limits);
      InsertChunksCompletes(db, left, chunks);
      var o := InsertChunks(db, left, chunks);
      FlushCompletes(o.db, o.left, b, tables[1..], limits);
    }
  }

  lemma {:induction false} WaitingElsewhere(b: Buffers, r: RawRow, tables: seq<RawTable>)
    requires r.table !in tables
    ensures Waiting(Buffered(b, r), tables) == Waiting(b, tables)
  {
    if tables != [] {
      assert tables[0] in tables;
      WaitingElsewhere(b, r, tables[1..]);
    }
  }

  predicate Different(tables: seq<RawTable>) {
    forall i, j :: 0 <= i < j < |tables| ==> tables[i] != tables[j]
  }

  lemma FlushedTablesDiffer()
    ensures Different(FLUSH_ORDER)
  {
  }

  /** A buffered row waits in one table. */
  lemma {:induction false} WaitingAddsOne(b: Buffers, r: RawRow, tables: seq<RawTable>)
    requires Different(tables)
    ensures Waiting(Buffered(b, r), tables) <= Waiting(b, tables) + 1
  {
    if tables != [] {
      if tables[0] == r.table {
        assert forall j :: 0 < j < |tables| ==> tables[j] != tables[0];
        WaitingElsewhere(b, r, tables[1..]);
      } else {
        WaitingAddsOne(b, r, tables[1..]);
      }
    }
  }

  lemma {:induction false} NothingWaits(tables: seq<RawTable>)
    ensures Waiting(NoRows(), tables) == 0
  {
    if tables != [] {
      NothingWaits(tables[1..]);
    }
  }

  lemma {:induction false} WaitingIsBuffered(rows: seq<RawRow>)
    ensures Waiting(AllBuffered(NoRows(), rows), FLUSH_ORDER) <= |rows|
  {
    if rows == [] {
      NothingWaits(FLUSH_ORDER);
    } else {
      WaitingIsBuffered(rows[..|rows|-1]);
      hide Waiting, Buffered, Different;
      FlushedTablesDiffer();
      WaitingAddsOne(AllBuffered(NoRows(), rows[..|rows|-1]), rows[|rows|-1], FLUSH_ORDER);
    }
  }

  lemma {:induction false} LargestIsAttained(b: Buffers, tables: seq<RawTable>, n: nat)
    ensures LargestBuffer(b, tables) >= n <==> n == 0 || exists t <- tables :: |BufferOf(b, t)| >= n
  {
    if tables != [] {
      var init, last := tables[..|tables|-1], tables[|tables|-1];
      LargestIsAttained(b, init, n);
      assert tables == init + [last];
    }
  }

  // ---------------------------------------------------------------- when a batch is flushed

  /** A table has at least as many rows of the blocks `lo..hi`. */
  predicate HasRows(chain: Chain, lo: int, hi: int, t: RawTable, n: nat) {
    |OfTable(RowsBetween(chain, lo, hi + 1), t)| >= n
  }

  ghost predicate SomeTableHasRows(chain: Chain, lo: int, hi: int, n: nat) {
    exists t: RawTable :: HasRows(chain, lo, hi, t, n)
  }

  /** A batch is due: at the head, at the end of the range, or too many blocks, rows of a table, or milliseconds. */
  ghost predicate IsDue(cfg: Config, chain: Chain, s: Run, next: int, isOnTop: bool, ms: nat) {
    var lo := DurableTo(cfg, s.db) + 1;
    || isOnTop
    || (cfg.range.Some? && next == cfg.range.value.toBlock)
    || next - lo + 1 >= cfg.limits.blocks
    || SomeTableHasRows(chain, lo, next, cfg.limits.rows)
    || ms >= cfg.limits.elapsedMs
  }

  ghost predicate CanBatch(cfg: Config, s: Run, next: int) {
    s.live.Some? && next >= FirstFed(cfg, s.live.value.head) && (cfg.range.Some? ==> next <= cfg.range.value.toBlock)
  }

  lemma SameRowsWait(b: Buffers, b': Buffers, tables: seq<RawTable>)
    requires forall t <- tables :: BufferOf(b, t) == BufferOf(b', t)
    ensures Waiting(b, tables) == Waiting(b', tables)
  {
    if tables != [] {
      assert tables[0] in tables;
      SameRowsWait(b, b', tables[1..]);
    }
  }

  /** A buffered run waits in its tables, row for row. */
  lemma RunWaits(chain: Chain, b: Buffers, lo: int, hi: int)
    requires BuffersAre(chain, b, lo, hi)
    ensures Waiting(b, FLUSH_ORDER) <= |RowsBetween(chain, lo, hi + 1)|
  {
    var rows := RowsBetween(chain, lo, hi + 1);
    var b' := AllBuffered(NoRows(), rows);
    EmptyBuffers(chain, lo);
    forall t <- FLUSH_ORDER ensures BufferOf(b, t) == BufferOf(b', t) {
      BufferedRows(NoRows(), rows, t);
    }
    hide AllBuffered, RowsBetween, BufferOf, Waiting;
    SameRowsWait(b, b', FLUSH_ORDER);
    WaitingIsBuffered(rows);
  }

  /** What a batch has in memory before the flush policy decides. */
  lemma BatchBuffers(cfg: Config, chain: Chain, s: Run, next: int)
    requires s.live.Some? && MemoryConsistent(cfg, chain, s.db, s.live.value) && CanBatch(cfg, s, next)
    ensures var rows := RowsBetween(chain, FirstFed(cfg, s.live.value.head), next + 1);
            BuffersAre(chain, AllBuffered(s.live.value.proc.buffers, rows), DurableTo(cfg, s.db) + 1, next)
            && next > DurableTo(cfg, s.db)
  {
    hide RowsBetween, OfTable, AllBuffered, BuffersAre;
    var l := s.live.value;
    var lo := DurableTo(cfg, s.db) + 1;
    var mid := Max(lo - 1, l.head);
    assert FirstFed(cfg, l.head) == mid + 1;
    BufferingExtendsTheRun(chain, l.proc.buffers, RowsBetween(chain, mid + 1, next + 1), lo, mid, next);
  }

  /** What the flush policy decides about the buffers. */
  predicate Due(range: Option<Range>, limits: Limits, b: Buffers, info: TxInfo) {
    ShouldFlush(FlushState(|BufferOf(b, Blocks)|, LargestBuffer(b, FLUSH_ORDER), info.msSinceLastFlush, info.isOnTop,
                           ReachedEnd(range, info.next.height)), limits)
  }

  lemma FullTableExactly(chain: Chain, b: Buffers, lo: int, hi: int, n: nat)
    requires BuffersAre(chain, b, lo, hi) && n > 0
    ensures LargestBuffer(b, FLUSH_ORDER) >= n <==> SomeTableHasRows(chain, lo, hi, n)
  {
    LargestIsAttained(b, FLUSH_ORDER, n);
    forall t: RawTable ensures t in FLUSH_ORDER && (HasRows(chain, lo, hi, t, n) <==> |BufferOf(b, t)| >= n) {
      EveryTableIsFlushed(t);
    }
    hide LargestBuffer, BuffersAre, BufferOf, HasRows;
  }

  lemma PendingBlocksExactly(chain: Chain, b: Buffers, lo: int, hi: int)
    requires WellFormed(chain) && BuffersAre(chain, b, lo, hi) && lo <= hi
    ensures |BufferOf(b, Blocks)| == hi - lo + 1
  {
    hide WellFormed;
    BlockRowsCountBlocks(chain, lo, hi + 1);
    hide RowsBetween, OfTable;
  }

  lemma DueIsDecided(cfg: Config, chain: Chain, s: Run, b: Buffers, next: int, isOnTop: bool, ms: nat)
    requires ValidConfig(cfg) && WellFormed(chain) && BuffersAre(chain, b, DurableTo(cfg, s.db) + 1, next)
    requires next > DurableTo(cfg, s.db) && (cfg.range.Some? ==> next <= cfg.range.value.toBlock)
    ensures Due(cfg.range, cfg.limits, b, TxInfo(Head(next, chain.hash(next)), isOnTop, ms))
       <==> IsDue(cfg, chain, s, next, isOnTop, ms)
  {
    hide WellFormed, RowsBetween, OfTable, LargestBuffer, BuffersAre, BufferOf, DurableTo, SomeTableHasRows;
    var lo := DurableTo(cfg, s.db) + 1;
    PendingBlocksExactly(chain, b, lo, next);
    FullTableExactly(chain, b, lo, next, cfg.limits.rows);
  }

  lemma TransactWaits(range: Option<Range>, limits: Limits, db: RawDb, left: nat, p: Proc, rows: seq<RawRow>,
                      info: TxInfo, valid: bool)
    requires limits.size > 0 && !Due(range, limits, AllBuffered(p.buffers, rows), info)
    ensures Transact(range, limits, db, left, p, rows, info, valid)
         == Step(Outcome(db, left, true), p.(buffers := AllBuffered(p.buffers, rows)))
  {
    hide FlushTables, AllBuffered, LargestBuffer, ShouldFlush, BufferOf;
  }

  lemma TransactFlushes(range: Option<Range>, limits: Limits, db: RawDb, left: nat, p: Proc, rows: seq<RawRow>,
                        info: TxInfo, valid: bool)
    requires limits.size > 0 && Due(range, limits, AllBuffered(p.buffers, rows), info)
    ensures var o := SaveCheckpoint(FlushTables(db, left, AllBuffered(p.buffers, rows), FLUSH_ORDER, limits),
                                    info.next);
            var q := p.(buffers := NoRows());
            Transact(range, limits, db, left, p, rows, info, valid)
              == (if ReachedEnd(range, info.next.height) then FinalizeRange(o, q, valid) else Step(o, q))
  {
    hide FlushTables, AllBuffered, LargestBuffer, ShouldFlush, BufferOf, NoRows;
  }

  /** An uncut transaction, in terms of what is decided. */
  lemma TransactCompletes(range: Option<Range>, limits: Limits, db: RawDb, left: nat, p: Proc, rows: seq<RawRow>,
                          info: TxInfo)
    requires limits.size > 0 && left > Waiting(AllBuffered(p.buffers, rows), FLUSH_ORDER) + 1
    ensures var b, step := AllBuffered(p.buffers, rows), Transact(range, limits, db, left, p, rows, info, true);
            && step.out.ok
            && (if Due(range, limits, b, info)
                then && step.out.db.checkpoint == Some(info.next) && step.proc.buffers == NoRows()
                     && (ReachedEnd(range, info.next.height) && !p.rangeFinalized ==> step.out.db.finalized)
                else step.out.db == db && step.proc.buffers == b)
  {
    hide FlushTables, AllBuffered, Waiting, NoRows, Due, Transact;
    var b := AllBuffered(p.buffers, rows);
    FlushCompletes(db, left, b, FLUSH_ORDER, limits);
    if Due(range, limits, b, info) {
      TransactFlushes(range, limits, db, left, p, rows, info, true);
    } else {
      TransactWaits(range, limits, db, left, p, rows, info, true);
    }
  }

  /**
   An uncut batch empties the buffers, makes every block up to its last durable and moves the checkpoint
   there exactly when it is due, and a due batch that ends the range finalizes it; otherwise the tables
   stay as they are and the batch waits in memory.
   */
  lemma BatchFlushesExactly(cfg: Config, chain: Chain, before: map<RawKey, RawRow>, s: Run, next: int, isOnTop: bool,
                            ms: nat, left: nat)
    requires ValidConfig(cfg) && WellFormed(chain) && Invariant(cfg, chain, before, s) && CanBatch(cfg, s, next)
    requires left > |RowsBetween(chain, DurableTo(cfg, s.db) + 1, next + 1)| + 1
    ensures var s' := Next(cfg, chain, s, Batch(next, isOnTop, ms, left, true));
            && s'.live.Some? && s'.live.value.head == next
            && (if IsDue(cfg, chain, s, next, isOnTop, ms)
                then && s'.db.checkpoint == Some(Head(next, chain.hash(next)))
                     && (forall t :: BufferOf(s'.live.value.proc.buffers, t) == [])
                     && (forall h :: Base(cfg) <= h <= next ==> BlockDurable(chain, s'.db.rows, h))
                     && (cfg.range.Some? && next == cfg.range.value.toBlock && !s.live.value.proc.rangeFinalized ==>
                           s'.db.finalized)
                else s'.db == s.db && BuffersAre(chain, s'.live.value.proc.buffers, DurableTo(cfg, s.db) + 1, next))
  {
    hide Transact, AllBuffered, Waiting, NoRows, BufferOf, RowsBetween, OfTable, IsDue, Due, BlockDurable, WellFormed,
      OnlyFrom, BuffersAre, MemoryConsistent;
    var l := s.live.value;
    var rows := RowsBetween(chain, FirstFed(cfg, l.head), next + 1);
    var b := AllBuffered(l.proc.buffers, rows);
    BatchBuffers(cfg, chain, s, next);
    DueIsDecided(cfg, chain, s, b, next, isOnTop, ms);
    RunWaits(chain, b, DurableTo(cfg, s.db) + 1, next);
    TransactCompletes(cfg.range, cfg.limits, s.db, left, l.proc, rows,
                      TxInfo(Head(next, chain.hash(next)), isOnTop, ms));
    EmptyBuffers(chain, next + 1);
    StepKeepsInvariant(cfg, chain, before, s, Batch(next, isOnTop, ms, left, true));
  }

  /** No step whose validation fails finalizes the range. */
  lemma {:induction false} InvalidNeverFinalizes(cfg: Config, chain: Chain, s: Run, actions: seq<Action>)
    requires cfg.limits.size > 0 && !s.db.finalized
    requires forall a <- actions :: (a.Batch? || a.FinalizeResumed?) ==> !a.valid
    ensures !After(cfg, chain, s, actions).db.finalized
  {
    if actions != [] {
      var init, last := actions[..|actions|-1], actions[|actions|-1];
      assert actions == init + [last];
      InvalidNeverFinalizes(cfg, chain, s, init);
      hide Next;
      InvalidStep(cfg, chain, After(cfg, chain, s, init), last);
    }
  }

  lemma InvalidStep(cfg: Config, chain: Chain, s: Run, a: Action)
    requires cfg.limits.size > 0 && !s.db.finalized && ((a.Batch? || a.FinalizeResumed?) ==> !a.valid)
    ensures !Next(cfg, chain, s, a).db.finalized
  {
    hide Transact, RowsBetween;
    if a.Batch? && s.live.Some? {
      var rows := RowsBetween(chain, FirstFed(cfg, s.live.value.head), a.next + 1);
      InvalidTransact(cfg.range, cfg.limits, s.db, a.left, s.live.value.proc, rows,
                      TxInfo(Head(a.next, chain.hash(a.next)), a.isOnTop, a.msSinceLastFlush));
    }
  }

  lemma InvalidTransact(range: Option<Range>, limits: Limits, db: RawDb, left: nat, p: Proc, rows: seq<RawRow>,
                        info: TxInfo)
    requires limits.size > 0 && !db.finalized
    ensures !Transact(range, limits, db, left, p, rows, info, false).out.db.finalized
  {
    hide FlushTables, AllBuffered, Due, Transact, NoRows;
    FlushKeepsFinalized(db, left, AllBuffered(p.buffers, rows), FLUSH_ORDER, limits);
    if Due(range, limits, AllBuffered(p.buffers, rows), info) {
      TransactFlushes(range, limits, db, left, p, rows, info, false);
    } else {
      TransactWaits(range, limits, db, left, p, rows, info, false);
    }
  }

  lemma {:induction false} FlushKeepsFinalized(db: RawDb, left: nat, b: Buffers, tables: seq<RawTable>, limits: Limits)
    requires limits.size > 0
    ensures FlushTables(db, left, b, tables, limits).db.finalized == db.finalized
    decreases |tables|
  {
    if tables != [] {
      var chunks := ChunksOf(tables[0], BufferOf(b, tables[0]), limits);
      InsertsKeepFinalized(db, left, chunks);
      var o := InsertChunks(db, left, chunks);
      if o.ok { FlushKeepsFinalized(o.db, o.left, b, tables[1..], limits); }
    }
  }

  lemma {:induction false} InsertsKeepFinalized(db: RawDb, left: nat, chunks: seq<seq<RawRow>>)
    ensures InsertChunks(db, left, chunks).db.finalized == db.finalized
    decreases |chunks|
  {
    if chunks != [] {
      var o := Insert(db, left, chunks[0]);
      if o.ok { InsertsKeepFinalized(o.db, o.left, chunks[1..]); }
    }
  }

  // ---------------------------------------------------------------- whole runs

  lemma AfterOneMore(cfg: Config, chain: Chain, s: Run, actions: seq<Action>, a: Action)
    requires cfg.limits.size > 0
    ensures After(cfg, chain, s, actions + [a]) == Next(cfg, chain, After(cfg, chain, s, actions), a)
  {
    assert (actions + [a])[..|actions|] == actions;
  }

  /** The rows of the blocks a process that connects now would be fed, up to `next`. */
  function Owed(cfg: Config, chain: Chain, s: Run, next: int): seq<RawRow> {
    RowsBetween(chain, FirstFed(cfg, ResumeHead(s.db, cfg.range).height), next + 1)
  }

  /** A block can be fed to a process that connects now, together with everything owed below it. */
  predicate CanBeFed(cfg: Config, s: Run, next: int) {
    FirstFed(cfg, ResumeHead(s.db, cfg.range).height) <= next && (cfg.range.Some? ==> next <= cfg.range.value.toBlock)
  }

  /** A restart and one batch. */
  function LastBatch(next: int, isOnTop: bool, left: nat): seq<Action> {
    [Connect, Batch(next, isOnTop, 0, left, true)]
  }

  /** At the chain's head, or at the end of the range. */
  predicate IsFinal(cfg: Config, next: int, isOnTop: bool) {
    isOnTop || (cfg.range.Some? && next == cfg.range.value.toBlock)
  }

  /**
   Whatever was cut off before, restarting and not being cut off again brings the writer to rest at the
   head, or at the end of its range, which is then finalized.
   */
  lemma EveryCrashIsRecoverable(cfg: Config, chain: Chain, s: Run, actions: seq<Action>, next: int, isOnTop: bool,
                                left: nat)
    requires ValidConfig(cfg) && WellFormed(chain) && Initial(cfg, s) && IsFinal(cfg, next, isOnTop)
    requires var at := After(cfg, chain, s, actions);
             at.highest <= next && CanBeFed(cfg, at, next) && left > |Owed(cfg, chain, at, next)| + 1
    ensures var s' := After(cfg, chain, s, actions + LastBatch(next, isOnTop, left));
            AtRest(s', next) && (cfg.range.Some? && next == cfg.range.value.toBlock ==> s'.db.finalized)
  {
    hide After, Transact, RowsBetween, OfTable, BlockDurable, OnlyFrom, BuffersAre, WellFormed, SomeTableHasRows,
      DurableTo, ResumeHead, AllBuffered, MemoryConsistent, NoRows, BufferOf;
    var at := After(cfg, chain, s, actions);
    var connected := Next(cfg, chain, at, Connect);
    AfterOneMore(cfg, chain, s, actions, Connect);
    AfterOneMore(cfg, chain, s, actions + [Connect], Batch(next, isOnTop, 0, left, true));
    assert actions + LastBatch(next, isOnTop, left) == actions + [Connect] + [Batch(next, isOnTop, 0, left, true)];
    EveryRunIsSafe(cfg, chain, s, actions + [Connect]);
    EveryRunIsSafe(cfg, chain, s, actions + LastBatch(next, isOnTop, left));
    ConnectedRun(cfg, at);
    BatchFlushesExactly(cfg, chain, s.db.rows, connected, next, isOnTop, 0, left);
  }

  /** A process that connects is fed from just above the durable blocks. */
  lemma ConnectedRun(cfg: Config, s: Run)
    requires ValidConfig(cfg)
    requires s.db.checkpoint.Some? ==> s.db.checkpoint.value.height >= Base(cfg)
    ensures FirstFed(cfg, ResumeHead(s.db, cfg.range).height) == DurableTo(cfg, s.db) + 1
  {
  }

  /** After any crashes, one restart that is not cut off leaves the very tables of a run that never crashed. */
  lemma RecoveryReachesUninterruptedResult(cfg: Config, chain: Chain, s: Run, actions: seq<Action>, next: int,
                                           isOnTop: bool, left: nat, left': nat)
    requires ValidConfig(cfg) && WellFormed(chain) && Initial(cfg, s) && IsFinal(cfg, next, isOnTop)
    requires CanBeFed(cfg, s, next) && left' > |Owed(cfg, chain, s, next)| + 1
    requires var at := After(cfg, chain, s, actions);
             at.highest <= next && CanBeFed(cfg, at, next) && left > |Owed(cfg, chain, at, next)| + 1
    ensures After(cfg, chain, s, actions + LastBatch(next, isOnTop, left)).db.rows
         == After(cfg, chain, s, LastBatch(next, isOnTop, left')).db.rows
  {
    assert After(cfg, chain, s, []) == s && [] + LastBatch(next, isOnTop, left') == LastBatch(next, isOnTop, left');
    hide After, Owed;
    EveryCrashIsRecoverable(cfg, chain, s, actions, next, isOnTop, left);
    EveryCrashIsRecoverable(cfg, chain, s, [], next, isOnTop, left');
    RecoveredEqualsUninterrupted(cfg, cfg, chain, s, actions + LastBatch(next, isOnTop, left),
                                 LastBatch(next, isOnTop, left'), next);
  }
}
