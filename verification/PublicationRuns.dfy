/** Whole runs of one price writer. */
module PublicationRuns {
  // Connects, batches, deferred publications and crashes, in any order, cut off at any insert.
  import opened Options
  import opened Publication
  import opened PublicationSafety

  /**
   The rows the batch callback adds for a block.  They may depend on the process (its number is
   the first argument): carried-forward prices and runtime-upgrade rows depend on what the
   process has already seen.
   */
  type RowSource = (nat, int) -> seq<Row>

  ghost predicate HasBlock(rows: seq<Row>, h: int) {
    exists r <- rows :: r.Block? && r.height == h
  }

  /** Every processed block adds its own block row, and price rows only at its own height. */
  ghost predicate WellFormed(source: RowSource) {
    forall e: nat, h: int ::
      && HasBlock(source(e, h), h)
      && (forall r <- source(e, h) :: r.Price? ==> r.height == h)
  }

  function RowsBetween(source: RowSource, epoch: nat, lo: int, hi: int): seq<Row>
    decreases hi - lo
  {
    if lo >= hi then [] else RowsBetween(source, epoch, lo, hi - 1) + source(epoch, hi - 1)
  }

  datatype Live = Live(head: int, proc: Proc)

  datatype Run = Run(db: Tables, epoch: nat, live: Option<Live>)

  datatype Action =
    | Connect
    | Batch(next: int, left: nat)
    | Publish(left: nat, survives: bool)
    | Crash

  /** The first height the runner feeds: above the resumed head, inside the configured range. */
  function FirstFed(cfg: Config, head: int): int {
    Max(cfg.fromBlock, head + 1)
  }

  function Next(cfg: Config, bucket: int -> int, source: RowSource, s: Run, a: Action): Run
    requires cfg.size > 0
  {
    match a
    case Connect => Run(s.db, s.epoch + 1, Some(Live(ResumeHead(cfg, s.db), FRESH_PROC)))
    case Crash => s.(live := None)
    case Batch(next, left) =>
      if s.live.None? || next < FirstFed(cfg, s.live.value.head) then s
      else
        var rows := RowsBetween(source, s.epoch, FirstFed(cfg, s.live.value.head), next + 1);
        var step := Transact(cfg, bucket, s.db, left, s.live.value.proc, rows, next);
        Run(step.out.db, s.epoch, if step.out.ok then Some(Live(next, step.proc)) else None)
    case Publish(left, survives) =>
      // A publication that fails leaves the process either gone, or alive with the rows it still has to write.
      if s.live.None? then s
      else
        var step := PublishDeferred(cfg, bucket, s.db, left, s.live.value.proc);
        Run(step.out.db, s.epoch, if step.out.ok || survives then Some(s.live.value.(proc := step.proc)) else None)
  }

  function After(cfg: Config, bucket: int -> int, source: RowSource, s: Run, actions: seq<Action>): Run
    requires cfg.size > 0
  {
    if actions == [] then s
    else Next(cfg, bucket, source, After(cfg, bucket, source, s, actions[..|actions|-1]), actions[|actions|-1])
  }

  /** The lowest block this writer is responsible for: without a genesis start, block 0 is never fed. */
  function Base(cfg: Config): int {
    if cfg.fromGenesis then 0 else Max(cfg.fromBlock, 1)
  }

  ghost predicate ValidConfig(cfg: Config) {
    cfg.size > 0 && cfg.fromBlock >= 0 && (cfg.fromGenesis ==> cfg.fromBlock == 0)
  }

  /** Everything one process produced for the block is in its table. */
  ghost predicate BlockPublished(source: RowSource, epoch: nat, h: int, present: set<Key>) {
    exists e: nat :: e <= epoch && Keys(source(e, h)) <= present
  }

  /** The checkpoint never passes a block that is not fully published. */
  ghost predicate CheckpointCovered(cfg: Config, source: RowSource, s: Run) {
    s.db.checkpoint.Some? ==>
      forall h :: Base(cfg) <= h <= s.db.checkpoint.value ==> BlockPublished(source, s.epoch, h, Keys(s.db.log))
  }

  /** A block the process has been fed is published, or waits in its deferred rows. */
  ghost predicate Held(source: RowSource, epoch: nat, h: int, present: set<Key>, waiting: set<Key>) {
    BlockPublished(source, epoch, h, present) || Keys(source(epoch, h)) <= present + waiting
  }

  ghost predicate MemoryConsistent(cfg: Config, source: RowSource, db: Tables, epoch: nat, l: Live) {
    var p := l.proc;
    && p.batch == NO_ROWS && Typed(p.deferred)
    && (!cfg.defer ==> p.deferred == NO_ROWS)
    && (p.pending.Some? ==> p.pending.value <= l.head)
    && PricesHaveBlocks(Keys(db.log), p.deferred)
    && forall h :: Base(cfg) <= h <= l.head ==> Held(source, epoch, h, Keys(db.log), BufferKeys(p.deferred))
  }

  ghost predicate Invariant(cfg: Config, bucket: int -> int, source: RowSource, s: Run) {
    && Sound(bucket, s.db)
    && CheckpointCovered(cfg, source, s)
    && (s.live.Some? ==> MemoryConsistent(cfg, source, s.db, s.epoch, s.live.value))
  }

  // ---------------------------------------------------------------- one step

  lemma {:induction false} RowsBetweenKeys(source: RowSource, epoch: nat, lo: int, hi: int)
    requires WellFormed(source)
    ensures forall h :: lo <= h < hi ==> Keys(source(epoch, h)) <= Keys(RowsBetween(source, epoch, lo, hi))
    ensures forall r <- RowsBetween(source, epoch, lo, hi) :: r.Price? ==> lo <= r.height < hi
    ensures forall h :: lo <= h < hi ==> HasBlock(RowsBetween(source, epoch, lo, hi), h)
    decreases hi - lo
  {
    if lo < hi {
      var init := RowsBetween(source, epoch, lo, hi - 1);
      RowsBetweenKeys(source, epoch, lo, hi - 1);
      KeysJoin(init, source(epoch, hi - 1));
      var all := init + source(epoch, hi - 1);
      forall h | lo <= h < hi ensures HasBlock(all, h) {
        if h < hi - 1 {
          assert HasBlock(init, h);
        } else {
          assert HasBlock(source(epoch, h), h);
        }
      }
    }
  }

  lemma StagedKeys(deferred: Buffers, batch: Buffers)
    ensures BufferKeys(Staged(deferred, batch)) == BufferKeys(deferred) + BufferKeys(batch)
    ensures Typed(deferred) && Typed(batch) ==> Typed(Staged(deferred, batch))
  {
    KeysJoin(deferred.blocks, batch.blocks);
    KeysJoin(deferred.prices, batch.prices);
    KeysJoin(deferred.trades, batch.trades);
    KeysJoin(deferred.assets, batch.assets);
    KeysJoin(deferred.upgrades, batch.upgrades);
    KeysJoin(deferred.errorNames, batch.errorNames);
  }

  /** Publishing closed buffers in table order: sound wherever it is cut off, complete when it is not. */
  lemma FlushSafe(bucket: int -> int, db: Tables, left: nat, b: Buffers, size: nat)
    requires size > 0 && Sound(bucket, db) && Typed(b) && PricesHaveBlocks(Keys(db.log), b)
    ensures var o := InsertTables(bucket, db, left, InOrder(b), size);
            Sound(bucket, o.db) && Extends(db, o.db) && (o.ok ==> BufferKeys(b) <= Keys(o.db.log))
  {
    OrderedIsClosed(Keys(db.log), b);
    OrderedKeys(b);
    InsertTablesSafe(bucket, db, left, InOrder(b), size);
  }

  lemma KeysGrow(a: seq<Row>, b: seq<Row>)
    requires a <= b
    ensures Keys(a) <= Keys(b)
  {
    assert b == a + b[|a|..];
  }

  lemma CoverageGrows(cfg: Config, source: RowSource, s: Run, s': Run)
    requires CheckpointCovered(cfg, source, s)
    requires Keys(s.db.log) <= Keys(s'.db.log) && s.epoch <= s'.epoch && s'.db.checkpoint == s.db.checkpoint
    ensures CheckpointCovered(cfg, source, s')
  {
    if s.db.checkpoint.Some? {
      forall h | Base(cfg) <= h <= s.db.checkpoint.value
        ensures BlockPublished(source, s'.epoch, h, Keys(s'.db.log))
      {
        assert BlockPublished(source, s.epoch, h, Keys(s.db.log));
      }
    }
  }

  lemma HeldGrows(source: RowSource, epoch: nat, h: int, present: set<Key>, waiting: set<Key>, present': set<Key>,
                  waiting': set<Key>)
    requires Held(source, epoch, h, present, waiting)
    requires present <= present' && waiting <= present' + waiting'
    ensures Held(source, epoch, h, present', waiting')
  {
  }

  /** The callback's rows for a stretch of blocks, once buffered, are closed and cover every block of it. */
  lemma BatchIsClosed(source: RowSource, epoch: nat, lo: int, hi: int)
    requires WellFormed(source)
    ensures var b := AllBuffered(NO_ROWS, RowsBetween(source, epoch, lo, hi));
            && Typed(b)
            && (forall r <- b.prices :: r.Price? ==> BlockKey(r.height) in Keys(b.blocks))
            && forall h :: lo <= h < hi ==> Keys(source(epoch, h)) <= BufferKeys(b)
  {
    var rows := RowsBetween(source, epoch, lo, hi);
    var b := AllBuffered(NO_ROWS, rows);
    RowsBetweenKeys(source, epoch, lo, hi);
    AllBufferedKeys(NO_ROWS, rows);
    assert BufferKeys(NO_ROWS) == {};
    forall r <- b.prices | r.Price? ensures BlockKey(r.height) in Keys(b.blocks) {
      assert HasBlock(rows, r.height);
      var block :| block in rows && block.Block? && block.height == r.height;
      assert block in b.blocks && KeyOf(block) == BlockKey(r.height);
    }
  }

  lemma PublishKeepsInvariant(cfg: Config, bucket: int -> int, source: RowSource, s: Run, left: nat, survives: bool)
    requires ValidConfig(cfg) && Invariant(cfg, bucket, source, s) && s.live.Some?
    ensures Invariant(cfg, bucket, source, Next(cfg, bucket, source, s, Publish(left, survives)))
  {
    var l := s.live.value;
    var p := l.proc;
    if cfg.defer {
      var staged := Staged(p.deferred, NO_ROWS);
      assert staged == p.deferred;
      var o := InsertTables(bucket, s.db, left, InOrder(staged), cfg.size);
      FlushSafe(bucket, s.db, left, staged, cfg.size);
      KeysGrow(s.db.log, o.db.log);
      CoverageGrows(cfg, source, s, s.(db := o.db));
      hide InsertTables, InOrder, Sound, Extends, KeyOf;
      forall h | Base(cfg) <= h <= l.head
        ensures o.ok ==> BlockPublished(source, s.epoch, h, Keys(o.db.log))
        ensures Held(source, s.epoch, h, Keys(o.db.log), BufferKeys(p.deferred))
      {
        assert Held(source, s.epoch, h, Keys(s.db.log), BufferKeys(p.deferred));
        HeldGrows(source, s.epoch, h, Keys(s.db.log), BufferKeys(p.deferred), Keys(o.db.log), BufferKeys(p.deferred));
        if o.ok {
          HeldGrows(source, s.epoch, h, Keys(s.db.log), BufferKeys(p.deferred), Keys(o.db.log), {});
        }
      }
    }
  }

  lemma DeferredBatchKeepsInvariant(cfg: Config, bucket: int -> int, source: RowSource, s: Run, next: int)
    requires ValidConfig(cfg) && cfg.defer && WellFormed(source) && Invariant(cfg, bucket, source, s) && s.live.Some?
    requires next >= FirstFed(cfg, s.live.value.head)
    ensures var rows := RowsBetween(source, s.epoch, FirstFed(cfg, s.live.value.head), next + 1);
            var p := s.live.value.proc;
            var q := p.(batch := NO_ROWS, deferred := Staged(p.deferred, AllBuffered(p.batch, rows)),
                        pending := Some(Max(p.pending.Or(0), next)));
            Invariant(cfg, bucket, source, s.(live := Some(Live(next, q))))
  {
    var l := s.live.value;
    var p := l.proc;
    var lo := FirstFed(cfg, l.head);
    var b := AllBuffered(NO_ROWS, RowsBetween(source, s.epoch, lo, next + 1));
    var d := Staged(p.deferred, b);
    BatchIsClosed(source, s.epoch, lo, next + 1);
    StagedKeys(p.deferred, b);
    KeysJoin(p.deferred.blocks, b.blocks);
    forall h | Base(cfg) <= h <= next
      ensures Held(source, s.epoch, h, Keys(s.db.log), BufferKeys(d))
    {
      if h <= l.head {
        HeldGrows(source, s.epoch, h, Keys(s.db.log), BufferKeys(p.deferred), Keys(s.db.log), BufferKeys(d));
      } else {
        assert Keys(source(s.epoch, h)) <= BufferKeys(b);
      }
    }
  }

  lemma DirectBatchKeepsInvariant(cfg: Config, bucket: int -> int, source: RowSource, s: Run, next: int, left: nat)
    requires ValidConfig(cfg) && !cfg.defer && WellFormed(source) && Invariant(cfg, bucket, source, s) && s.live.Some?
    requires next >= FirstFed(cfg, s.live.value.head)
    ensures Invariant(cfg, bucket, source, Next(cfg, bucket, source, s, Batch(next, left)))
  {
    var l := s.live.value;
    var lo := FirstFed(cfg, l.head);
    var b := AllBuffered(NO_ROWS, RowsBetween(source, s.epoch, lo, next + 1));
    BatchIsClosed(source, s.epoch, lo, next + 1);
    var o := InsertTables(bucket, s.db, left, InOrder(b), cfg.size);
    FlushSafe(bucket, s.db, left, b, cfg.size);
    KeysGrow(s.db.log, o.db.log);
    CoverageGrows(cfg, source, s, s.(db := o.db));
    assert BufferKeys(NO_ROWS) == {};
    forall h | o.ok && Base(cfg) <= h <= next
      ensures BlockPublished(source, s.epoch, h, Keys(o.db.log))
    {
      if h <= l.head {
        assert Held(source, s.epoch, h, Keys(s.db.log), {});
      } else {
        assert Keys(source(s.epoch, h)) <= BufferKeys(b);
      }
    }
  }

  lemma StepKeepsInvariant(cfg: Config, bucket: int -> int, source: RowSource, s: Run, a: Action)
    requires ValidConfig(cfg) && WellFormed(source) && Invariant(cfg, bucket, source, s)
    ensures Invariant(cfg, bucket, source, Next(cfg, bucket, source, s, a))
  {
    match a
    case Connect =>
      var s' := Next(cfg, bucket, source, s, a);
      CoverageGrows(cfg, source, s, s');
      assert BufferKeys(NO_ROWS) == {};
      forall h | Base(cfg) <= h <= s'.live.value.head
        ensures Held(source, s'.epoch, h, Keys(s'.db.log), {})
      {
        assert BlockPublished(source, s'.epoch, h, Keys(s'.db.log));
      }
    case Crash =>
    case Publish(left, survives) =>
      if s.live.Some? {
        PublishKeepsInvariant(cfg, bucket, source, s, left, survives);
      }
    case Batch(next, left) =>
      if s.live.Some? && next >= FirstFed(cfg, s.live.value.head) {
        if cfg.defer {
          var p := s.live.value.proc;
          var rows := RowsBetween(source, s.epoch, FirstFed(cfg, s.live.value.head), next + 1);
          var q := p.(batch := NO_ROWS, deferred := Staged(p.deferred, AllBuffered(p.batch, rows)),
                      pending := Some(Max(p.pending.Or(0), next)));
          var staged := s.(live := Some(Live(next, q)));
          DeferredBatchKeepsInvariant(cfg, bucket, source, s, next);
          PublishKeepsInvariant(cfg, bucket, source, staged, left, false);
        } else {
          DirectBatchKeepsInvariant(cfg, bucket, source, s, next, left);
        }
      }
  }

  // ---------------------------------------------------------------- whole runs

  /** Before this writer's first connect: sound tables, none of its checkpoint. */
  ghost predicate Initial(bucket: int -> int, s: Run) {
    Sound(bucket, s.db) && s.db.checkpoint.None? && s.live.None?
  }

  /** Exactly-once publication, block before price, and a covered checkpoint, in every reachable state. */
  lemma {:induction false} EveryRunIsSafe(cfg: Config, bucket: int -> int, source: RowSource, s: Run,
                                          actions: seq<Action>)
    requires ValidConfig(cfg) && WellFormed(source) && Initial(bucket, s)
    ensures Invariant(cfg, bucket, source, After(cfg, bucket, source, s, actions))
  {
    if actions != [] {
      EveryRunIsSafe(cfg, bucket, source, s, actions[..|actions|-1]);
      StepKeepsInvariant(cfg, bucket, source, After(cfg, bucket, source, s, actions[..|actions|-1]),
                         actions[|actions|-1]);
    }
  }

  // ---------------------------------------------------------------- what readers see

  lemma {:induction false} TotalJoin(bucket: int -> int, c: Candle, a: seq<Row>, b: seq<Row>)
    ensures Total(bucket, c, a + b).buy == Total(bucket, c, a).buy + Total(bucket, c, b).buy
    ensures Total(bucket, c, a + b).sell == Total(bucket, c, a).sell + Total(bucket, c, b).sell
  {
    if b == [] {
      assert a + b == a;
    } else {
      TotalJoin(bucket, c, a, b[..|b|-1]);
      assert (a + b)[..|a + b|-1] == a + b[..|b|-1];
    }
  }

  lemma NotPricedTotal(bucket: int -> int, c: Candle, r: Row)
    requires !r.Price?
    ensures Total(bucket, c, [r]) == Volume(0, 0)
  {
    assert [r][..0] == [];
  }

  lemma {:induction false} PutOnTotal(bucket: int -> int, c: Candle, acc: seq<Row>, r: Row)
    requires r.Price? ==> KeyOf(r) !in Keys(acc)
    ensures Total(bucket, c, Put(acc, r)) == Total(bucket, c, acc + [r])
  {
    if acc == [] {
      assert acc + [r] == [r];
    } else {
      var head, tail := [acc[0]], acc[1..];
      assert acc == head + tail;
      assert acc + [r] == head + (tail + [r]);
      if KeyOf(acc[0]) == KeyOf(r) {
        assert KeyOf(acc[0]) in Keys(acc);
        NotPricedTotal(bucket, c, acc[0]);
        NotPricedTotal(bucket, c, r);
      }
      hide Total, KeyOf, Keys;
      TotalJoin(bucket, c, head, tail);
      if KeyOf(acc[0]) == KeyOf(r) {
        TotalJoin(bucket, c, [r], tail);
        TotalJoin(bucket, c, acc, [r]);
      } else {
        KeysJoin(head, tail);
        PutOnTotal(bucket, c, tail, r);
        TotalJoin(bucket, c, head, Put(tail, r));
        TotalJoin(bucket, c, head, tail + [r]);
      }
    }
  }

  /**
   The candles hold exactly the volume of the table as read with one row per key (the last
   version of each): no key was added twice, and none that is visible is missing.
   */
  lemma {:induction false} CandlesMatchFinalView(bucket: int -> int, c: Candle, log: seq<Row>)
    requires NoKeyTwice(log)
    ensures Total(bucket, c, UniqueByKey(log)) == Total(bucket, c, log)
  {
    if log != [] {
      var init, r := log[..|log|-1], log[|log|-1];
      CandlesMatchFinalView(bucket, c, init);
      UniqueByKeyIsKeyed(init);
      assert log == init + [r];
      forall i | 0 <= i < |init| && KeyOf(init[i]) == KeyOf(r) ensures !r.Price? {
        assert log[i] == init[i] && log[|log|-1] == r;
      }
      PutOnTotal(bucket, c, UniqueByKey(init), r);
      TotalJoin(bucket, c, init, [r]);
      TotalJoin(bucket, c, UniqueByKey(init), [r]);
    }
  }

  /**
   Every reachable state, as its readers see it: a candle is the sum over the visible prices
   that fall in it, and every block up to the checkpoint has its block row.
   */
  lemma ReadersSeeEachKeyOnce(cfg: Config, bucket: int -> int, source: RowSource, s: Run, actions: seq<Action>,
                              c: Candle, h: int)
    requires ValidConfig(cfg) && WellFormed(source) && Initial(bucket, s)
    ensures var db := After(cfg, bucket, source, s, actions).db;
            && CandleVolume(db.candles, c) == Total(bucket, c, UniqueByKey(db.log))
            && (db.checkpoint.Some? && Base(cfg) <= h <= db.checkpoint.value ==> BlockKey(h) in Keys(db.log))
  {
    var s' := After(cfg, bucket, source, s, actions);
    EveryRunIsSafe(cfg, bucket, source, s, actions);
    CandlesMatchFinalView(bucket, c, s'.db.log);
    if s'.db.checkpoint.Some? && Base(cfg) <= h <= s'.db.checkpoint.value {
      assert BlockPublished(source, s'.epoch, h, Keys(s'.db.log));
      var e: nat :| e <= s'.epoch && Keys(source(e, h)) <= Keys(s'.db.log);
      assert HasBlock(source(e, h), h);
      var r :| r in source(e, h) && r.Block? && r.height == h;
      assert KeyOf(r) in Keys(source(e, h));
    }
  }

  // ---------------------------------------------------------------- what a run leaves out

  /** Heads and checkpoints of a writer that does not start at genesis are never below zero. */
  ghost predicate AboveZero(s: Run) {
    && (s.db.checkpoint.Some? ==> s.db.checkpoint.value >= 0)
    && (s.live.Some? ==> s.live.value.head >= 0
                         && (s.live.value.proc.pending.Some? ==> s.live.value.proc.pending.value >= 0))
  }

  lemma {:induction false} InsertTablesKeepCheckpoint(bucket: int -> int, db: Tables, left: nat, tables: seq<seq<Row>>,
                                                      size: nat)
    requires size > 0
    ensures InsertTables(bucket, db, left, tables, size).db.checkpoint == db.checkpoint
    decreases |tables|
  {
    if tables != [] {
      InsertChunksKeepCheckpoint(bucket, db, left, tables[0], size);
      var o := InsertChunks(bucket, db, left, tables[0], size);
      if o.ok { InsertTablesKeepCheckpoint(bucket, o.db, o.left, tables[1..], size); }
    }
  }

  lemma {:induction false} InsertChunksKeepCheckpoint(bucket: int -> int, db: Tables, left: nat, rows: seq<Row>,
                                                      size: nat)
    requires size > 0
    ensures InsertChunks(bucket, db, left, rows, size).db.checkpoint == db.checkpoint
    decreases |rows|
  {
    if rows != [] {
      var o := InsertRows(bucket, db, left, rows[..Min(size, |rows|)]);
      if o.ok { InsertChunksKeepCheckpoint(bucket, o.db, o.left, rows[Min(size, |rows|)..], size); }
    }
  }

  lemma PublishKeepsAboveZero(cfg: Config, bucket: int -> int, db: Tables, left: nat, p: Proc)
    requires cfg.size > 0 && (p.pending.Some? ==> p.pending.value >= 0)
      && (db.checkpoint.Some? ==> db.checkpoint.value >= 0)
    ensures var step := PublishDeferred(cfg, bucket, db, left, p);
            step.proc.pending == p.pending && (step.out.db.checkpoint.Some? ==> step.out.db.checkpoint.value >= 0)
  {
    InsertTablesKeepCheckpoint(bucket, db, left, InOrder(Staged(p.deferred, p.batch)), cfg.size);
    hide InsertTables, InOrder, Staged;
  }

  lemma StepStaysAboveZero(cfg: Config, bucket: int -> int, source: RowSource, s: Run, a: Action)
    requires ValidConfig(cfg) && !cfg.fromGenesis && AboveZero(s)
    ensures AboveZero(Next(cfg, bucket, source, s, a))
  {
    hide InsertTables, InOrder, Staged, AllBuffered, PublishDeferred;
    if s.live.Some? {
      var p := s.live.value.proc;
      match a
      case Publish(left, survives) =>
        PublishKeepsAboveZero(cfg, bucket, s.db, left, p);
      case Batch(next, left) =>
        var batch := AllBuffered(p.batch, RowsBetween(source, s.epoch, FirstFed(cfg, s.live.value.head), next + 1));
        var q := p.(batch := NO_ROWS, deferred := Staged(p.deferred, batch),
                    pending := Some(Max(p.pending.Or(0), next)));
        if next >= FirstFed(cfg, s.live.value.head) {
          PublishKeepsAboveZero(cfg, bucket, s.db, left, q);
          InsertTablesKeepCheckpoint(bucket, s.db, left, InOrder(batch), cfg.size);
        }
      case Connect =>
      case Crash =>
    }
  }

  /** A writer that does not start at genesis is never fed block 0; one that does starts with it at every connect. */
  lemma {:induction false} BlockZeroIsFedExactly(cfg: Config, bucket: int -> int, source: RowSource, s: Run,
                                                 actions: seq<Action>)
    requires ValidConfig(cfg) && Initial(bucket, s)
    ensures var s' := After(cfg, bucket, source, s, actions);
            && (cfg.fromGenesis <==> FirstFed(cfg, ResumeHead(cfg, s'.db)) == 0)
            && (!cfg.fromGenesis ==> AboveZero(s') && (s'.live.Some? ==> FirstFed(cfg, s'.live.value.head) > 0))
  {
    if !cfg.fromGenesis && actions != [] {
      BlockZeroIsFedExactly(cfg, bucket, source, s, actions[..|actions|-1]);
      hide Next;
      StepStaysAboveZero(cfg, bucket, source, After(cfg, bucket, source, s, actions[..|actions|-1]),
                         actions[|actions|-1]);
    }
  }

  /** Once a deferring writer has published, batches alone change nothing in the tables, the checkpoint included. */
  lemma {:induction false} PublishedWriterOnlyStages(cfg: Config, bucket: int -> int, source: RowSource, s: Run,
                                                     actions: seq<Action>)
    requires ValidConfig(cfg) && cfg.defer && s.live.Some? && s.live.value.proc.published
    requires forall a <- actions :: a.Batch?
    ensures var s' := After(cfg, bucket, source, s, actions);
            s'.db == s.db && s'.live.Some? && s'.live.value.proc.published
  {
    if actions != [] {
      PublishedWriterOnlyStages(cfg, bucket, source, s, actions[..|actions|-1]);
      assert actions[|actions|-1] in actions;
    }
  }
}
