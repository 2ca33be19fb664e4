/** Crash safety of the raw writer over whole runs of batches, flushes, crashes and restarts. */
module RawRuns {
  import opened Options
  import opened BlockRanges
  import opened RawPipeline

  /** The rows of each block, the same in every process that indexes it, and its hash. */
  datatype Chain = Chain(rows: int -> seq<RawRow>, hash: int -> string)

  /** One block row per block; rows carry their block's height; a key determines its row. */
  ghost predicate WellFormed(chain: Chain) {
    && (forall h :: |OfTable(chain.rows(h), Blocks)| == 1)
    && (forall h, r :: r in chain.rows(h) ==> r.height == h)
    && (forall h, r, r' :: r in chain.rows(h) && r' in chain.rows(h) ==>
          r.table == r'.table && r.identity == r'.identity ==> r == r')
  }

  function OfTable(rows: seq<RawRow>, t: RawTable): seq<RawRow> {
    if rows == [] then []
    else OfTable(rows[..|rows|-1], t) + (if rows[|rows|-1].table == t then [rows[|rows|-1]] else [])
  }

  function RowsBetween(chain: Chain, lo: int, hi: int): seq<RawRow>
    decreases hi - lo
  {
    if lo >= hi then [] else RowsBetween(chain, lo, hi - 1) + chain.rows(hi - 1)
  }

  datatype Config = Config(fromBlock: int, range: Option<Range>, limits: Limits)

  ghost predicate ValidConfig(cfg: Config) {
    && cfg.fromBlock >= 0 && (cfg.range.Some? ==> cfg.range.value.fromBlock == cfg.fromBlock)
    && cfg.limits.size > 0 && cfg.limits.blocks > 0 && cfg.limits.rows > 0
  }

  datatype Live = Live(head: int, proc: Proc)

  /** `highest` is the highest block any process of this writer has been fed so far. */
  datatype Run = Run(db: RawDb, live: Option<Live>, highest: int)

  datatype Action =
    | Connect
    | Batch(next: int, isOnTop: bool, msSinceLastFlush: nat, left: nat, valid: bool)
    | FinalizeResumed(left: nat, valid: bool)
    | Crash

  function FirstFed(cfg: Config, head: int): int { Max(cfg.fromBlock, head + 1) }

  function Next(cfg: Config, chain: Chain, s: Run, a: Action): Run
    requires cfg.limits.size > 0
  {
    match a
    case Connect => s.(live := Some(Live(ResumeHead(s.db, cfg.range).height, Proc(NoRows(), false))))
    case Crash => s.(live := None)
    case Batch(next, isOnTop, ms, left, valid) =>
      if s.live.None? || next < FirstFed(cfg, s.live.value.head)
        || (cfg.range.Some? && next > cfg.range.value.toBlock) then s
      else
        var rows := RowsBetween(chain, FirstFed(cfg, s.live.value.head), next + 1);
        var step := Transact(cfg.range, cfg.limits, s.db, left, s.live.value.proc, rows,
                             TxInfo(Head(next, chain.hash(next)), isOnTop, ms), valid);
        Run(step.out.db, if step.out.ok then Some(Live(next, step.proc)) else None, Max(s.highest, next))
    case FinalizeResumed(left, valid) =>
      // A range worker that connects at or past its end validates at once, and stops.
      if s.live.None? || cfg.range.None? || ResumeHead(s.db, cfg.range).height < cfg.range.value.toBlock then s
      else s.(db := FinalizeRange(Outcome(s.db, left, true), s.live.value.proc, valid).out.db, live := None)
  }

  function After(cfg: Config, chain: Chain, s: Run, actions: seq<Action>): Run
    requires cfg.limits.size > 0
  {
    if actions == [] then s
    else Next(cfg, chain, After(cfg, chain, s, actions[..|actions|-1]), actions[|actions|-1])
  }

  /** The lowest block fed: block 0 only to a range worker that starts there. */
  function Base(cfg: Config): int {
    if cfg.range.Some? && cfg.fromBlock == 0 then 0 else Max(cfg.fromBlock, 1)
  }

  /** The last block whose rows are known durable: the checkpoint, or nothing yet. */
  function DurableTo(cfg: Config, db: RawDb): int {
    if db.checkpoint.Some? then db.checkpoint.value.height else Base(cfg) - 1
  }

  ghost predicate RowDurable(rows: map<RawKey, RawRow>, r: RawRow) {
    KeyOf(r) in rows && rows[KeyOf(r)] == r
  }

  ghost predicate BlockDurable(chain: Chain, rows: map<RawKey, RawRow>, h: int) {
    forall r <- chain.rows(h) :: RowDurable(rows, r)
  }

  /** The tables hold what they held before the writer, overwritten by rows of blocks in `lo..hi`. */
  ghost predicate OnlyFrom(chain: Chain, before: map<RawKey, RawRow>, rows: map<RawKey, RawRow>, lo: int, hi: int) {
    && before.Keys <= rows.Keys
    && forall k <- rows ::
         || (k in before && rows[k] == before[k])
         || (lo <= k.height <= hi && rows[k] in chain.rows(k.height) && KeyOf(rows[k]) == k)
  }

  /** What the buffers hold: exactly the rows of the contiguous run of blocks `lo..hi`, table by table. */
  ghost predicate BuffersAre(chain: Chain, b: Buffers, lo: int, hi: int) {
    forall t :: t in b && b[t] == OfTable(RowsBetween(chain, lo, hi + 1), t)
  }

  ghost predicate MemoryConsistent(cfg: Config, chain: Chain, db: RawDb, l: Live) {
    var lo := DurableTo(cfg, db) + 1;
    && FirstFed(cfg, ResumeHead(db, cfg.range).height) == lo
    && (l.head >= lo || FirstFed(cfg, l.head) == lo)
    && BuffersAre(chain, l.proc.buffers, lo, Max(lo - 1, l.head))
    && |BufferOf(l.proc.buffers, Blocks)| < cfg.limits.blocks
    && forall t :: |BufferOf(l.proc.buffers, t)| < cfg.limits.rows
  }

  ghost predicate Invariant(cfg: Config, chain: Chain, before: map<RawKey, RawRow>, s: Run) {
    && (forall h :: Base(cfg) <= h <= DurableTo(cfg, s.db) ==> BlockDurable(chain, s.db.rows, h))
    && OnlyFrom(chain, before, s.db.rows, Base(cfg), s.highest)
    && (s.db.checkpoint.Some? ==> Base(cfg) <= s.db.checkpoint.value.height <= s.highest
                                  && s.db.checkpoint.value.hash == chain.hash(s.db.checkpoint.value.height))
    && (s.db.finalized ==> cfg.range.Some? && DurableTo(cfg, s.db) >= cfg.range.value.toBlock)
    && (s.live.Some? ==> MemoryConsistent(cfg, chain, s.db, s.live.value))
  }

  // ---------------------------------------------------------------- rows and buffers

  lemma {:induction false} OfTableJoin(a: seq<RawRow>, b: seq<RawRow>, t: RawTable)
    ensures OfTable(a + b, t) == OfTable(a, t) + OfTable(b, t)
  {
    if b == [] {
      assert a + b == a;
    } else {
      OfTableJoin(a, b[..|b|-1], t);
      assert (a + b)[..|a + b|-1] == a + b[..|b|-1];
    }
  }

  lemma {:induction false} OfTableMembers(rows: seq<RawRow>, t: RawTable)
    ensures forall r :: r in OfTable(rows, t) <==> r in rows && r.table == t
  {
    if rows != [] {
      OfTableMembers(rows[..|rows|-1], t);
      assert rows == rows[..|rows|-1] + [rows[|rows|-1]];
    }
  }

  lemma {:induction false} RowsBetweenJoin(chain: Chain, lo: int, mid: int, hi: int)
    requires lo <= mid <= hi
    ensures RowsBetween(chain, lo, hi) == RowsBetween(chain, lo, mid) + RowsBetween(chain, mid, hi)
    decreases hi - mid
  {
    if mid < hi {
      RowsBetweenJoin(chain, lo, mid, hi - 1);
    }
  }

  lemma {:induction false} RowsBetweenMembers(chain: Chain, lo: int, hi: int)
    requires WellFormed(chain)
    ensures forall r :: r in RowsBetween(chain, lo, hi) <==> lo <= r.height < hi && r in chain.rows(r.height)
    decreases hi - lo
  {
    if lo < hi {
      RowsBetweenMembers(chain, lo, hi - 1);
    }
  }

  /** One buffered block row is one pending block. */
  lemma {:induction false} BlockRowsCountBlocks(chain: Chain, lo: int, hi: int)
    requires WellFormed(chain) && lo <= hi
    ensures |OfTable(RowsBetween(chain, lo, hi), Blocks)| == hi - lo
    decreases hi - lo
  {
    if lo < hi {
      BlockRowsCountBlocks(chain, lo, hi - 1);
      OfTableJoin(RowsBetween(chain, lo, hi - 1), chain.rows(hi - 1), Blocks);
    }
  }

  lemma {:induction false} BufferedRows(b: Buffers, rows: seq<RawRow>, t: RawTable)
    requires t in b
    ensures t in AllBuffered(b, rows) && AllBuffered(b, rows)[t] == b[t] + OfTable(rows, t)
  {
    if rows != [] {
      BufferedRows(b, rows[..|rows|-1], t);
    }
  }

  lemma {:induction false} LargestBounds(b: Buffers, tables: seq<RawTable>, t: RawTable)
    requires t in tables
    ensures |BufferOf(b, t)| <= LargestBuffer(b, tables)
  {
    var last := tables[|tables|-1];
    if t != last {
      assert tables == tables[..|tables|-1] + [last];
      LargestBounds(b, tables[..|tables|-1], t);
    }
  }

  lemma EveryTableIsFlushed(t: RawTable)
    ensures t in FLUSH_ORDER
  {
    assert FLUSH_ORDER[0] == Blocks && FLUSH_ORDER[1] == Extrinsics && FLUSH_ORDER[2] == Calls
      && FLUSH_ORDER[3] == Events
        && FLUSH_ORDER[4] == Snapshots && FLUSH_ORDER[5] == BalanceObservations && FLUSH_ORDER[6] == XcmActivity
        && FLUSH_ORDER[7] == BridgeEvidence && FLUSH_ORDER[8] == OperationTraces && FLUSH_ORDER[9] == ParserWarnings;
  }

  // ---------------------------------------------------------------- chunks lose nothing

  lemma {:induction false} CountChunksKeepRows(rows: seq<RawRow>, size: nat)
    requires size > 0
    ensures Flat(CountChunks(rows, size)) == rows
    decreases |rows|
  {
    if rows != [] {
      CountChunksKeepRows(rows[Min(size, |rows|)..], size);
    }
  }

  lemma {:induction false} ByteChunksKeepRows(chunk: seq<RawRow>, rows: seq<RawRow>, maxRows: nat, maxBytes: nat)
    ensures Flat(ByteChunksFrom(chunk, rows, maxRows, maxBytes)) == chunk + rows
    decreases |rows|
  {
    if rows == [] {
      assert chunk + rows == chunk;
      assert chunk != [] ==> [chunk][1..] == [];
    } else if Closes(chunk, rows[0], maxRows, maxBytes) {
      ByteChunksKeepRows([rows[0]], rows[1..], maxRows, maxBytes);
      assert chunk + rows == chunk + ([rows[0]] + rows[1..]);
    } else {
      ByteChunksKeepRows(chunk + [rows[0]], rows[1..], maxRows, maxBytes);
      assert chunk + rows == (chunk + [rows[0]]) + rows[1..];
    }
  }

  /** A chunk within both bounds; only a single row may exceed the byte bound on its own. */
  ghost predicate WithinBounds(chunk: seq<RawRow>, maxRows: nat, maxBytes: nat) {
    |chunk| > 0 && |chunk| <= Max(1, maxRows) && (|chunk| > 1 ==> Bytes(chunk) <= maxBytes)
  }

  /** Bounded chunks, none of which could have taken the next chunk's first row. */
  lemma {:induction false} ByteChunksAreGreedy(chunk: seq<RawRow>, rows: seq<RawRow>, maxRows: nat, maxBytes: nat)
    requires chunk == [] || WithinBounds(chunk, maxRows, maxBytes)
    ensures var c := ByteChunksFrom(chunk, rows, maxRows, maxBytes);
            && (forall i :: 0 <= i < |c| ==> WithinBounds(c[i], maxRows, maxBytes))
            && (forall i :: 0 <= i < |c| - 1 ==> |c[i]| >= maxRows || Bytes(c[i]) + c[i+1][0].bytes > maxBytes)
            && (chunk != [] ==> c != [] && chunk <= c[0])
    decreases |rows|
  {
    if rows == [] {
    } else if Closes(chunk, rows[0], maxRows, maxBytes) {
      ByteChunksAreGreedy([rows[0]], rows[1..], maxRows, maxBytes);
    } else {
      assert (chunk + [rows[0]])[..|chunk|] == chunk;
      ByteChunksAreGreedy(chunk + [rows[0]], rows[1..], maxRows, maxBytes);
    }
  }

  /** The other tables' chunks are full, but for the last. */
  lemma {:induction false} CountChunksAreFull(rows: seq<RawRow>, size: nat)
    requires size > 0
    ensures var c := CountChunks(rows, size);
            && (forall i :: 0 <= i < |c| ==> 1 <= |c[i]| <= size)
            && (forall i :: 0 <= i < |c| - 1 ==> |c[i]| == size)
            && (rows != [] ==> c != [])
    decreases |rows|
  {
    if rows != [] {
      var n := Min(size, |rows|);
      var c, rest := CountChunks(rows, size), CountChunks(rows[n..], size);
      CountChunksAreFull(rows[n..], size);
      assert c == [rows[..n]] + rest;
      assert n < size ==> rows[n..] == [] && rest == [];
      assert forall i :: 0 < i < |c| ==> c[i] == rest[i - 1];
    }
  }

  lemma ChunksKeepRows(t: RawTable, rows: seq<RawRow>, limits: Limits)
    requires limits.size > 0
    ensures Flat(ChunksOf(t, rows, limits)) == rows
  {
    if t == BalanceObservations {
      ByteChunksKeepRows([], rows, limits.balanceRows, limits.balanceBytes);
    } else {
      CountChunksKeepRows(rows, limits.size);
    }
  }

  // ---------------------------------------------------------------- inserts

  ghost predicate ChainRow(chain: Chain, r: RawRow) { r in chain.rows(r.height) }

  ghost predicate ChainRows(chain: Chain, rows: seq<RawRow>, lo: int, hi: int) {
    forall r <- rows :: lo <= r.height <= hi && ChainRow(chain, r)
  }

  /** Nothing foreign appears, and what is durable stays durable. */
  ghost predicate Grown(chain: Chain, rows: map<RawKey, RawRow>, rows': map<RawKey, RawRow>, lo: int, hi: int) {
    && OnlyFrom(chain, rows, rows', lo, hi)
    && forall x :: ChainRow(chain, x) && RowDurable(rows, x) ==> RowDurable(rows', x)
  }

  lemma GrownTwice(chain: Chain, a: map<RawKey, RawRow>, b: map<RawKey, RawRow>, c: map<RawKey, RawRow>, lo: int,
                   hi: int)
    requires Grown(chain, a, b, lo, hi) && Grown(chain, b, c, lo, hi)
    ensures Grown(chain, a, c, lo, hi)
  {
  }

  lemma SameKeySameRow(chain: Chain, x: RawRow, y: RawRow)
    requires WellFormed(chain) && ChainRow(chain, x) && ChainRow(chain, y) && KeyOf(x) == KeyOf(y)
    ensures x == y
  {
  }

  lemma {:induction false} ReplacedGrows(chain: Chain, table: map<RawKey, RawRow>, rows: seq<RawRow>, lo: int, hi: int)
    requires WellFormed(chain) && ChainRows(chain, rows, lo, hi)
    ensures Grown(chain, table, Replaced(table, rows), lo, hi)
    ensures forall r <- rows :: RowDurable(Replaced(table, rows), r)
  {
    hide WellFormed;
    if rows != [] {
      var init, last := rows[..|rows|-1], rows[|rows|-1];
      assert rows == init + [last];
      ReplacedGrows(chain, table, init, lo, hi);
      var before, after := Replaced(table, init), Replaced(table, rows);
      assert last in rows && ChainRow(chain, last);
      forall x | ChainRow(chain, x) && RowDurable(before, x) ensures RowDurable(after, x) {
        if KeyOf(x) == KeyOf(last) {
          SameKeySameRow(chain, x, last);
        }
      }
    }
  }

  lemma {:induction false} InsertChunksGrows(chain: Chain, db: RawDb, left: nat, chunks: seq<seq<RawRow>>, lo: int,
                                             hi: int)
    requires WellFormed(chain) && ChainRows(chain, Flat(chunks), lo, hi)
    ensures var o := InsertChunks(db, left, chunks);
            && o.db == db.(rows := o.db.rows) && Grown(chain, db.rows, o.db.rows, lo, hi)
            && (o.ok ==> forall r <- Flat(chunks) :: RowDurable(o.db.rows, r))
    decreases |chunks|
  {
    if chunks != [] {
      var o := Insert(db, left, chunks[0]);
      assert forall r <- chunks[0] :: r in Flat(chunks);
      assert forall r <- Flat(chunks[1..]) :: r in Flat(chunks);
      ReplacedGrows(chain, db.rows, chunks[0], lo, hi);
      if o.ok {
        InsertChunksGrows(chain, o.db, o.left, chunks[1..], lo, hi);
        GrownTwice(chain, db.rows, o.db.rows, InsertChunks(db, left, chunks).db.rows, lo, hi);
      }
    }
  }

  lemma {:induction false} FlushTablesGrows(chain: Chain, db: RawDb, left: nat, b: Buffers, tables: seq<RawTable>,
                                            limits: Limits, lo: int, hi: int)
    requires WellFormed(chain) && limits.size > 0
    requires forall t <- tables :: ChainRows(chain, BufferOf(b, t), lo, hi)
    ensures var o := FlushTables(db, left, b, tables, limits);
            && o.db == db.(rows := o.db.rows) && Grown(chain, db.rows, o.db.rows, lo, hi)
            && (o.ok ==> forall t <- tables :: forall r <- BufferOf(b, t) :: RowDurable(o.db.rows, r))
    decreases |tables|
  {
    if tables != [] {
      var chunks := ChunksOf(tables[0], BufferOf(b, tables[0]), limits);
      ChunksKeepRows(tables[0], BufferOf(b, tables[0]), limits);
      InsertChunksGrows(chain, db, left, chunks, lo, hi);
      var o := InsertChunks(db, left, chunks);
      if o.ok {
        FlushTablesGrows(chain, o.db, o.left, b, tables[1..], limits, lo, hi);
        var o' := FlushTables(o.db, o.left, b, tables[1..], limits);
        GrownTwice(chain, db.rows, o.db.rows, o'.db.rows, lo, hi);
        assert tables == [tables[0]] + tables[1..];
      }
    }
  }

  lemma RowHeight(chain: Chain, h: int, r: RawRow)
    requires WellFormed(chain) && r in chain.rows(h)
    ensures r.height == h
  {
  }

  /** A flush of the buffered run of blocks: safe wherever it is cut off, all of the run durable when it is not. */
  lemma FlushMakesRunDurable(chain: Chain, db: RawDb, left: nat, b: Buffers, limits: Limits, lo: int, hi: int)
    requires WellFormed(chain) && limits.size > 0 && BuffersAre(chain, b, lo, hi)
    ensures var o := FlushTables(db, left, b, FLUSH_ORDER, limits);
            && o.db == db.(rows := o.db.rows) && Grown(chain, db.rows, o.db.rows, lo, hi)
            && (o.ok ==> forall h :: lo <= h <= hi ==> BlockDurable(chain, o.db.rows, h))
  {
    hide FlushTables, WellFormed, Grown, RowsBetween, OfTable;
    RowsBetweenMembers(chain, lo, hi + 1);
    forall t ensures ChainRows(chain, BufferOf(b, t), lo, hi) {
      OfTableMembers(RowsBetween(chain, lo, hi + 1), t);
    }
    FlushTablesGrows(chain, db, left, b, FLUSH_ORDER, limits, lo, hi);
    var o := FlushTables(db, left, b, FLUSH_ORDER, limits);
    if o.ok {
      forall h, r | lo <= h <= hi && r in chain.rows(h) ensures RowDurable(o.db.rows, r) {
        RowHeight(chain, h, r);
        EveryTableIsFlushed(r.table);
        OfTableMembers(RowsBetween(chain, lo, hi + 1), r.table);
        assert r in BufferOf(b, r.table);
      }
    }
  }

  // ---------------------------------------------------------------- one step

  lemma BufferingExtendsTheRun(chain: Chain, b: Buffers, rows: seq<RawRow>, lo: int, mid: int, hi: int)
    requires BuffersAre(chain, b, lo, mid) && lo <= mid + 1 <= hi && rows == RowsBetween(chain, mid + 1, hi + 1)
    ensures BuffersAre(chain, AllBuffered(b, rows), lo, hi)
  {
    RowsBetweenJoin(chain, lo, mid + 1, hi + 1);
    forall t ensures t in AllBuffered(b, rows) && AllBuffered(b, rows)[t]
      == OfTable(RowsBetween(chain, lo, hi + 1), t) {
      BufferedRows(b, rows, t);
      OfTableJoin(RowsBetween(chain, lo, mid + 1), rows, t);
    }
  }

  lemma EmptyBuffers(chain: Chain, lo: int)
    ensures BuffersAre(chain, NoRows(), lo, lo - 1) && forall t :: BufferOf(NoRows(), t) == []
  {
    forall t ensures t in NoRows() && NoRows()[t] == [] {
      EveryTableIsFlushed(t);
    }
  }

  /** Flushing the run `lo..next` and moving the checkpoint, cut off or not. */
  lemma FlushKeepsInvariant(cfg: Config, chain: Chain, before: map<RawKey, RawRow>, s: Run, b: Buffers, left: nat,
                            next: int, finalized: bool)
    requires ValidConfig(cfg) && WellFormed(chain) && Invariant(cfg, chain, before, s)
    requires BuffersAre(chain, b, DurableTo(cfg, s.db) + 1, next) && next > DurableTo(cfg, s.db)
    ensures var o := SaveCheckpoint(FlushTables(s.db, left, b, FLUSH_ORDER, cfg.limits), Head(next, chain.hash(next)));
            && o.db.finalized == s.db.finalized && (o.ok ==> o.db.checkpoint == Some(Head(next, chain.hash(next))))
            && Invariant(cfg, chain, before,
                         Run(o.db, if o.ok then Some(Live(next, Proc(NoRows(), finalized)))
                             else None, Max(s.highest, next)))
  {
    hide FlushTables, WellFormed, RowsBetween, OfTable, Grown, OnlyFrom;
    var lo := DurableTo(cfg, s.db) + 1;
    var o := FlushTables(s.db, left, b, FLUSH_ORDER, cfg.limits);
    FlushMakesRunDurable(chain, s.db, left, b, cfg.limits, lo, next);
    forall h | Base(cfg) <= h <= (if o.ok then next else lo - 1) ensures BlockDurable(chain, o.db.rows, h) {
      if h < lo {
        OldBlocksStayDurable(chain, s.db.rows, o.db.rows, lo, next, h);
      }
    }
    OnlyFromWidens(chain, before, s.db.rows, o.db.rows, Base(cfg), s.highest, lo, next);
    EmptyBuffers(chain, next + 1);
  }

  /** A batch that fires no trigger only extends the buffered run. */
  lemma QuietBatchKeepsInvariant(cfg: Config, chain: Chain, before: map<RawKey, RawRow>, s: Run, b: Buffers, next: int,
                                 finalized: bool)
    requires Invariant(cfg, chain, before, s) && s.live.Some? && next >= FirstFed(cfg, s.live.value.head)
    requires BuffersAre(chain, b, DurableTo(cfg, s.db) + 1, next) && |BufferOf(b, Blocks)| < cfg.limits.blocks
    requires LargestBuffer(b, FLUSH_ORDER) < cfg.limits.rows
    ensures Invariant(cfg, chain, before, Run(s.db, Some(Live(next, Proc(b, finalized))), Max(s.highest, next)))
  {
    hide LargestBuffer, BuffersAre, BlockDurable, OnlyFrom;
    forall t ensures |BufferOf(b, t)| < cfg.limits.rows {
      EveryTableIsFlushed(t);
      LargestBounds(b, FLUSH_ORDER, t);
    }
    OnlyFromWidens(chain, before, s.db.rows, s.db.rows, Base(cfg), s.highest, DurableTo(cfg, s.db) + 1, next);
  }

  lemma BatchKeepsInvariant(cfg: Config, chain: Chain, before: map<RawKey, RawRow>, s: Run, a: Action)
    requires ValidConfig(cfg) && WellFormed(chain) && Invariant(cfg, chain, before, s) && s.live.Some? && a.Batch?
    requires a.next >= FirstFed(cfg, s.live.value.head) && (cfg.range.Some? ==> a.next <= cfg.range.value.toBlock)
    ensures Invariant(cfg, chain, before, Next(cfg, chain, s, a))
  {
    hide FlushTables, WellFormed, RowsBetween, OfTable, AllBuffered, LargestBuffer, BlockDurable, OnlyFrom;
    var l := s.live.value;
    var lo := DurableTo(cfg, s.db) + 1;
    var mid := Max(lo - 1, l.head);
    assert FirstFed(cfg, l.head) == mid + 1;
    var rows := RowsBetween(chain, mid + 1, a.next + 1);
    var b := AllBuffered(l.proc.buffers, rows);
    BufferingExtendsTheRun(chain, l.proc.buffers, rows, lo, mid, a.next);
    hide BuffersAre;
    var end := ReachedEnd(cfg.range, a.next);
    if ShouldFlush(FlushState(|BufferOf(b, Blocks)|, LargestBuffer(b, FLUSH_ORDER), a.msSinceLastFlush, a.isOnTop, end),
                   cfg.limits) {
      FlushKeepsInvariant(cfg, chain, before, s, b, a.left, a.next, l.proc.rangeFinalized);
    } else {
      QuietBatchKeepsInvariant(cfg, chain, before, s, b, a.next, l.proc.rangeFinalized);
      hide Invariant;
    }
  }

  lemma OldBlocksStayDurable(chain: Chain, rows: map<RawKey, RawRow>, rows': map<RawKey, RawRow>, lo: int, hi: int,
                             h: int)
    requires WellFormed(chain) && Grown(chain, rows, rows', lo, hi) && BlockDurable(chain, rows, h)
    ensures BlockDurable(chain, rows', h)
  {
    forall r <- chain.rows(h) ensures RowDurable(rows', r) {
      assert r.height == h && ChainRow(chain, r) && RowDurable(rows, r);
    }
  }

  lemma OnlyFromWidens(chain: Chain, before: map<RawKey, RawRow>, rows: map<RawKey, RawRow>, rows': map<RawKey, RawRow>,
                       base: int, top: int, lo: int, hi: int)
    requires OnlyFrom(chain, before, rows, base, top) && base <= lo
    requires rows' == rows || Grown(chain, rows, rows', lo, hi)
    ensures OnlyFrom(chain, before, rows', base, Max(top, hi))
  {
  }

  lemma ConnectKeepsInvariant(cfg: Config, chain: Chain, before: map<RawKey, RawRow>, s: Run)
    requires ValidConfig(cfg) && Invariant(cfg, chain, before, s)
    ensures Invariant(cfg, chain, before, Next(cfg, chain, s, Connect))
  {
    hide WellFormed, BlockDurable, OnlyFrom, RowsBetween, OfTable, BuffersAre;
    EmptyBuffers(chain, DurableTo(cfg, s.db) + 1);
  }

  lemma FinalizingKeepsInvariant(cfg: Config, chain: Chain, before: map<RawKey, RawRow>, s: Run, left: nat, valid: bool)
    requires ValidConfig(cfg) && Invariant(cfg, chain, before, s)
    ensures Invariant(cfg, chain, before, Next(cfg, chain, s, FinalizeResumed(left, valid)))
  {
    hide WellFormed, BlockDurable, OnlyFrom, MemoryConsistent;
  }

  lemma StepKeepsInvariant(cfg: Config, chain: Chain, before: map<RawKey, RawRow>, s: Run, a: Action)
    requires ValidConfig(cfg) && WellFormed(chain) && Invariant(cfg, chain, before, s)
    ensures Invariant(cfg, chain, before, Next(cfg, chain, s, a))
  {
    hide WellFormed, BlockDurable, OnlyFrom, MemoryConsistent, Transact, RowsBetween;
    match a
    case Connect => ConnectKeepsInvariant(cfg, chain, before, s);
    case Crash =>
    case FinalizeResumed(left, valid) => FinalizingKeepsInvariant(cfg, chain, before, s, left, valid);
    case Batch(next, isOnTop, ms, left, valid) =>
      if s.live.Some? && next >= FirstFed(cfg, s.live.value.head)
         && (cfg.range.Some? ==> next <= cfg.range.value.toBlock) {
        BatchKeepsInvariant(cfg, chain, before, s, a);
      }
  }

  // ---------------------------------------------------------------- whole runs

  /** Before this writer's first connect: whatever the tables hold, and no checkpoint of its own. */
  ghost predicate Initial(cfg: Config, s: Run) {
    s.db.checkpoint.None? && !s.db.finalized && s.live.None? && s.highest == Base(cfg) - 1
  }

  /**
   In every reachable state the blocks up to the checkpoint are durable in all ten tables, the
   memory is exactly the run above it, and a finalized range is durable to its end.
   */
  lemma {:induction false} EveryRunIsSafe(cfg: Config, chain: Chain, s: Run, actions: seq<Action>)
    requires ValidConfig(cfg) && WellFormed(chain) && Initial(cfg, s)
    ensures Invariant(cfg, chain, s.db.rows, After(cfg, chain, s, actions))
  {
    if actions != [] {
      var init := actions[..|actions|-1];
      EveryRunIsSafe(cfg, chain, s, init);
      StepKeepsInvariant(cfg, chain, s.db.rows, After(cfg, chain, s, init), actions[|actions|-1]);
    }
  }

  /** Pending work is bounded between batches: fewer blocks and, in each table, fewer rows than the limits. */
  lemma PendingIsBounded(cfg: Config, chain: Chain, s: Run, actions: seq<Action>)
    requires ValidConfig(cfg) && WellFormed(chain) && Initial(cfg, s)
    ensures var s' := After(cfg, chain, s, actions);
            s'.live.Some? ==>
              && s'.live.value.head - DurableTo(cfg, s'.db) < cfg.limits.blocks
              && forall t :: |BufferOf(s'.live.value.proc.buffers, t)| < cfg.limits.rows
  {
    hide After, RowsBetween, OfTable, BlockDurable, OnlyFrom, WellFormed, ResumeHead;
    var s' := After(cfg, chain, s, actions);
    EveryRunIsSafe(cfg, chain, s, actions);
    if s'.live.Some? {
      var lo := DurableTo(cfg, s'.db) + 1;
      BlockRowsCountBlocks(chain, lo, Max(lo - 1, s'.live.value.head) + 1);
    }
  }

  /** At rest: every block any process was fed is at or below the checkpoint. */
  predicate AtRest(s: Run, height: int) {
    s.db.checkpoint.Some? && s.db.checkpoint.value.height == height == s.highest
  }

  /**
   However two runs were batched, flushed, cut off and resumed, once both rest at the same
   height their tables are the same maps: a crash costs repeated work, never a different result.
   */
  lemma RecoveredEqualsUninterrupted(cfg: Config, cfg': Config, chain: Chain, s: Run, actions: seq<Action>,
                                     actions': seq<Action>, height: int)
    requires ValidConfig(cfg) && ValidConfig(cfg') && cfg'.(limits := cfg.limits) == cfg
    requires WellFormed(chain) && Initial(cfg, s)
    requires AtRest(After(cfg, chain, s, actions), height) && AtRest(After(cfg', chain, s, actions'), height)
    ensures After(cfg, chain, s, actions).db.rows == After(cfg', chain, s, actions').db.rows
  {
    hide After, WellFormed, BlockDurable, OnlyFrom, MemoryConsistent;
    EveryRunIsSafe(cfg, chain, s, actions);
    EveryRunIsSafe(cfg', chain, s, actions');
    RestingTableIsDetermined(cfg, chain, s.db.rows, After(cfg, chain, s, actions), After(cfg', chain, s, actions'),
                             height);
    RestingTableIsDetermined(cfg, chain, s.db.rows, After(cfg', chain, s, actions'), After(cfg, chain, s, actions),
                             height);
  }

  lemma RestingTableIsDetermined(cfg: Config, chain: Chain, before: map<RawKey, RawRow>, s: Run, s': Run, height: int)
    requires WellFormed(chain) && AtRest(s, height) && AtRest(s', height)
    requires OnlyFrom(chain, before, s.db.rows, Base(cfg), height)
      && OnlyFrom(chain, before, s'.db.rows, Base(cfg), height)
    requires forall h :: Base(cfg) <= h <= height ==>
      BlockDurable(chain, s.db.rows, h) && BlockDurable(chain, s'.db.rows, h)
    ensures forall k <- s.db.rows :: k in s'.db.rows && s'.db.rows[k] == s.db.rows[k]
  {
    forall k <- s.db.rows ensures k in s'.db.rows && s'.db.rows[k] == s.db.rows[k] {
      var x := s.db.rows[k];
      if Base(cfg) <= k.height <= height && x in chain.rows(k.height) && KeyOf(x) == k {
        assert BlockDurable(chain, s'.db.rows, k.height);
        assert RowDurable(s'.db.rows, x);
      } else if Base(cfg) <= k.height <= height {
        assert BlockDurable(chain, s.db.rows, k.height);
      }
    }
  }
}
