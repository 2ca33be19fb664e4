/** Every crash of the price writer can be made up for. */
module PublicationProgress {
  // With valid rows and enough statements a publication completes.
  import opened Options
  import opened Publication
  import opened PublicationSafety
  import opened PublicationRuns

  ghost predicate Valid(rows: seq<Row>) {
    forall r <- rows :: !BadTimestamp(r)
  }

  /** A chunk holds a row, so a flush takes at most one statement a row. */
  function RowCount(tables: seq<seq<Row>>): nat {
    if tables == [] then 0 else |tables[0]| + RowCount(tables[1..])
  }

  lemma InsertRowsCompletes(bucket: int -> int, db: Tables, left: nat, rows: seq<Row>)
    requires Valid(rows) && left > 0
    ensures var o := InsertRows(bucket, db, left, rows); o.ok && o.left >= left - 1
  {
    UniqueByKeyIsKeyed(rows);
    FreshIsTheAbsentPart(UniqueByKey(rows), Keys(db.log));
  }

  lemma {:induction false} InsertChunksCompletes(bucket: int -> int, db: Tables, left: nat, rows: seq<Row>, size: nat)
    requires size > 0 && Valid(rows) && left >= |rows|
    ensures var o := InsertChunks(bucket, db, left, rows, size); o.ok && o.left >= left - |rows|
    decreases |rows|
  {
    if rows != [] {
      hide InsertRows;
      var n := Min(size, |rows|);
      InsertRowsCompletes(bucket, db, left, rows[..n]);
      var o := InsertRows(bucket, db, left, rows[..n]);
      InsertChunksCompletes(bucket, o.db, o.left, rows[n..], size);
    }
  }

  lemma {:induction false} InsertTablesCompletes(bucket: int -> int, db: Tables, left: nat, tables: seq<seq<Row>>,
                                                 size: nat)
    requires size > 0 && (forall t <- tables :: Valid(t)) && left >= RowCount(tables)
    ensures var o := InsertTables(bucket, db, left, tables, size); o.ok && o.left >= left - RowCount(tables)
    decreases |tables|
  {
    if tables != [] {
      hide InsertChunks;
      InsertChunksCompletes(bucket, db, left, tables[0], size);
      var o := InsertChunks(bucket, db, left, tables[0], size);
      InsertTablesCompletes(bucket, o.db, o.left, tables[1..], size);
    }
  }

  // ---------------------------------------------------------------- one batch

  function Size(b: Buffers): nat {
    |b.blocks| + |b.prices| + |b.trades| + |b.assets| + |b.upgrades| + |b.errorNames|
  }

  lemma OrderedCount(b: Buffers)
    ensures RowCount(InOrder(b)) == Size(b)
  {
    var t := InOrder(b);
    assert t[1..][1..] == t[2..] && t[2..][1..] == t[3..] && t[3..][1..] == t[4..] && t[4..][1..] == t[5..];
    assert RowCount(t[5..]) == |b.errorNames| by { assert t[5..][1..] == []; }
    assert RowCount(t[3..]) == |b.assets| + |b.upgrades| + |b.errorNames|;
    assert RowCount(t[1..]) == |b.prices| + |b.trades| + RowCount(t[3..]);
  }

  ghost predicate ValidBuffers(b: Buffers) {
    forall t <- InOrder(b) :: Valid(t)
  }

  lemma BufferedStaysValid(b: Buffers, r: Row)
    requires ValidBuffers(b) && !BadTimestamp(r)
    ensures ValidBuffers(Buffered(b, r))
  {
    hide BadTimestamp;
    var t, t' := InOrder(b), InOrder(Buffered(b, r));
    forall i | 0 <= i < 6 ensures Valid(t'[i]) {
      assert t[i] in t && (t'[i] == t[i] || t'[i] == t[i] + [r]);
    }
  }

  lemma BufferedIsLarger(b: Buffers, r: Row)
    ensures Size(Buffered(b, r)) == Size(b) + 1
  {
  }

  lemma {:induction false} BufferingKeepsRows(rows: seq<Row>)
    requires Valid(rows)
    ensures Size(AllBuffered(NO_ROWS, rows)) == |rows| && ValidBuffers(AllBuffered(NO_ROWS, rows))
  {
    if rows != [] {
      var init, r := rows[..|rows|-1], rows[|rows|-1];
      BufferingKeepsRows(init);
      hide Buffered, ValidBuffers, Size, BadTimestamp;
      BufferedStaysValid(AllBuffered(NO_ROWS, init), r);
      BufferedIsLarger(AllBuffered(NO_ROWS, init), r);
    }
  }

  /** Writing a batch's rows, uncut, succeeds with a statement to spare for the checkpoint. */
  lemma BatchWrites(cfg: Config, bucket: int -> int, db: Tables, left: nat, rows: seq<Row>)
    requires cfg.size > 0 && Valid(rows) && left > |rows|
    ensures var o := InsertTables(bucket, db, left, InOrder(AllBuffered(NO_ROWS, rows)), cfg.size); o.ok && o.left > 0
  {
    BufferingKeepsRows(rows);
    BuffersAreWritten(bucket, db, left, AllBuffered(NO_ROWS, rows), cfg.size);
  }

  lemma StagingKeepsRows(a: Buffers, b: Buffers)
    requires ValidBuffers(a) && ValidBuffers(b)
    ensures ValidBuffers(Staged(a, b)) && Size(Staged(a, b)) == Size(a) + Size(b)
  {
    var s, t, u := InOrder(a), InOrder(b), InOrder(Staged(a, b));
    forall i | 0 <= i < 6 ensures Valid(u[i]) {
      assert s[i] in s && t[i] in t && u[i] == s[i] + t[i];
    }
  }

  /**
   An uncut batch of a deferring writer is published, with everything deferred before it, exactly when it
   is the first to reach the publishing block; otherwise the tables stay as they are.
   */
  lemma DeferredBatchPublishesExactly(cfg: Config, bucket: int -> int, db: Tables, left: nat, p: Proc, rows: seq<Row>,
                                      next: int)
    requires cfg.size > 0 && cfg.defer && p.batch == NO_ROWS && ValidBuffers(p.deferred) && Valid(rows)
    requires left > Size(p.deferred) + |rows|
    ensures var step := Transact(cfg, bucket, db, left, p, rows, next);
            && step.out.ok && step.proc.batch == NO_ROWS
            && step.proc.pending.Some? && step.proc.pending.value >= next
            && (if !p.published && cfg.publishAt.Some? && next >= cfg.publishAt.value
                then step.out.db.checkpoint == step.proc.pending && step.proc.deferred == NO_ROWS && step.proc.published
                else step.out.db == db && step.proc.published == p.published
                     && step.proc.deferred == Staged(p.deferred, AllBuffered(NO_ROWS, rows)))
  {
    hide InsertTables, InOrder, AllBuffered, Size, ValidBuffers, Valid, RowCount;
    var b := AllBuffered(NO_ROWS, rows);
    BufferingKeepsRows(rows);
    StagingKeepsRows(p.deferred, b);
    var staged := Staged(p.deferred, b);
    assert Staged(staged, NO_ROWS) == staged;
    hide Staged;
    BuffersAreWritten(bucket, db, left, staged, cfg.size);
  }

  lemma BuffersAreWritten(bucket: int -> int, db: Tables, left: nat, b: Buffers, size: nat)
    requires size > 0 && ValidBuffers(b) && left > Size(b)
    ensures var o := InsertTables(bucket, db, left, InOrder(b), size); o.ok && o.left > 0
  {
    OrderedCount(b);
    InsertTablesCompletes(bucket, db, left, InOrder(b), size);
  }

  // ---------------------------------------------------------------- whole runs

  ghost predicate ValidSource(source: RowSource) {
    forall e: nat, h: int :: Valid(source(e, h))
  }

  lemma {:induction false} RowsBetweenValid(source: RowSource, epoch: nat, lo: int, hi: int)
    requires ValidSource(source)
    ensures Valid(RowsBetween(source, epoch, lo, hi))
    decreases hi - lo
  {
    if lo < hi {
      RowsBetweenValid(source, epoch, lo, hi - 1);
    }
  }

  /** A new process that is not cut off writes its batch, and saves its last block as the checkpoint. */
  lemma FreshBatchCompletes(cfg: Config, bucket: int -> int, db: Tables, rows: seq<Row>, next: nat, left: nat,
                            left': nat)
    requires cfg.size > 0 && Valid(rows) && left > |rows| && left' > |rows|
    ensures var batch := Transact(cfg, bucket, db, left, FRESH_PROC, rows, next);
            var published := PublishDeferred(cfg, bucket, batch.out.db, left', batch.proc);
            batch.out.ok && published.out.ok && published.out.db.checkpoint == Some(next)
  {
    hide InsertTables, InOrder, AllBuffered;
    var b := AllBuffered(NO_ROWS, rows);
    var batch := Transact(cfg, bucket, db, left, FRESH_PROC, rows, next);
    assert Staged(NO_ROWS, b) == b && Staged(b, NO_ROWS) == b && Staged(NO_ROWS, NO_ROWS) == NO_ROWS;
    BatchWrites(cfg, bucket, db, left, rows);
    BatchWrites(cfg, bucket, batch.out.db, left', rows);
    NothingToWrite(cfg, bucket, batch.out.db, left');
  }

  lemma NothingToWrite(cfg: Config, bucket: int -> int, db: Tables, left: nat)
    requires cfg.size > 0
    ensures InsertTables(bucket, db, left, InOrder(NO_ROWS), cfg.size) == Outcome(db, left, true)
  {
    var t := InOrder(NO_ROWS);
    assert t[1..][1..] == t[2..] && t[2..][1..] == t[3..] && t[3..][1..] == t[4..] && t[4..][1..] == t[5..];
    assert InsertTables(bucket, db, left, t[5..], cfg.size) == Outcome(db, left, true) by { assert t[5..][1..] == []; }
    assert InsertTables(bucket, db, left, t[3..], cfg.size) == Outcome(db, left, true);
    assert InsertTables(bucket, db, left, t[1..], cfg.size) == Outcome(db, left, true);
  }

  /** The blocks a process that connects now would be fed, up to `next`. */
  function Owed(cfg: Config, source: RowSource, s: Run, next: int): seq<Row> {
    RowsBetween(source, s.epoch + 1, FirstFed(cfg, ResumeHead(cfg, s.db)), next + 1)
  }

  lemma AfterOneMore(cfg: Config, bucket: int -> int, source: RowSource, s: Run, actions: seq<Action>, a: Action)
    requires cfg.size > 0
    ensures After(cfg, bucket, source, s, actions + [a])
      == Next(cfg, bucket, source, After(cfg, bucket, source, s, actions), a)
  {
    assert (actions + [a])[..|actions|] == actions;
  }

  /**
   Whatever was cut off before, restarting and not being cut off again publishes every block up
   to the batch's last and moves the checkpoint there.
   */
  lemma EveryCrashIsRecoverable(cfg: Config, bucket: int -> int, source: RowSource, s: Run, actions: seq<Action>,
                                next: int, left: nat, left': nat)
    requires ValidConfig(cfg) && WellFormed(source) && ValidSource(source) && Initial(bucket, s)
    requires var at := After(cfg, bucket, source, s, actions);
             && next >= FirstFed(cfg, ResumeHead(cfg, at.db))
             && left > |Owed(cfg, source, at, next)| && left' > |Owed(cfg, source, at, next)|
    ensures var s' := After(cfg, bucket, source, s, actions + [Connect, Batch(next, left), Publish(left', false)]);
            && s'.live.Some? && s'.db.checkpoint == Some(next)
            && forall h :: Base(cfg) <= h <= next ==> BlockPublished(source, s'.epoch, h, Keys(s'.db.log))
  {
    var all := actions + [Connect, Batch(next, left), Publish(left', false)];
    EveryRunIsSafe(cfg, bucket, source, s, all);
    var at := After(cfg, bucket, source, s, actions);
    var connected := Next(cfg, bucket, source, at, Connect);
    assert all == actions + [Connect] + [Batch(next, left)] + [Publish(left', false)];
    AfterOneMore(cfg, bucket, source, s, actions, Connect);
    AfterOneMore(cfg, bucket, source, s, actions + [Connect], Batch(next, left));
    AfterOneMore(cfg, bucket, source, s, actions + [Connect] + [Batch(next, left)], Publish(left', false));
    RowsBetweenValid(source, connected.epoch, FirstFed(cfg, ResumeHead(cfg, at.db)), next + 1);
    hide After, Transact, PublishDeferred, Invariant;
    FreshBatchCompletes(cfg, bucket, at.db, Owed(cfg, source, at, next), next, left, left');
  }
}
