/** The raw writer: ten tables, a flush policy, and a checkpoint. */
module RawPipeline {
  // Tables replace by a stable key; the checkpoint moves only after a flush.
  // `left` counts the insert statements the server completes before the process is cut off.

  import opened Options
  import opened BlockRanges

  datatype RawTable =
    | Blocks | Extrinsics | Calls | Events | Snapshots
    | BalanceObservations | XcmActivity | BridgeEvidence | OperationTraces | ParserWarnings

  /** The order a flush drains the tables in. */
  const FLUSH_ORDER: seq<RawTable> :=
    [Blocks, Extrinsics, Calls, Events, Snapshots, BalanceObservations, XcmActivity, BridgeEvidence, OperationTraces,
     ParserWarnings]

  /** A row; `identity` is its chain-derived identity inside the block, `bytes` its serialized size. */
  datatype RawRow = RawRow(table: RawTable, height: int, identity: string, bytes: nat, payload: string)

  datatype RawKey = RawKey(table: RawTable, height: int, identity: string)

  function KeyOf(r: RawRow): RawKey { RawKey(r.table, r.height, r.identity) }

  datatype Head = Head(height: int, hash: string)

  datatype RawDb = RawDb(rows: map<RawKey, RawRow>, checkpoint: Option<Head>, finalized: bool)

  datatype Outcome = Outcome(db: RawDb, left: nat, ok: bool)

  type Buffers = map<RawTable, seq<RawRow>>

  function NoRows(): Buffers {
    map t: RawTable | t in FLUSH_ORDER :: []
  }

  function BufferOf(b: Buffers, t: RawTable): seq<RawRow> { if t in b then b[t] else [] }

  function Buffered(b: Buffers, r: RawRow): Buffers { b[r.table := BufferOf(b, r.table) + [r]] }

  function AllBuffered(b: Buffers, rows: seq<RawRow>): Buffers {
    if rows == [] then b else Buffered(AllBuffered(b, rows[..|rows|-1]), rows[|rows|-1])
  }

  // ---------------------------------------------------------------- chunks

  function CountChunks(rows: seq<RawRow>, size: nat): seq<seq<RawRow>>
    requires size > 0
    decreases |rows|
  {
    if rows == [] then [] else var n := Min(size, |rows|); [rows[..n]] + CountChunks(rows[n..], size)
  }

  function Bytes(rows: seq<RawRow>): nat {
    if rows == [] then 0 else Bytes(rows[..|rows|-1]) + rows[|rows|-1].bytes
  }

  /** A row closes the current chunk when the chunk is full by count or would grow past the byte bound. */
  predicate Closes(chunk: seq<RawRow>, r: RawRow, maxRows: nat, maxBytes: nat) {
    |chunk| > 0 && (|chunk| >= maxRows || Bytes(chunk) + r.bytes > maxBytes)
  }

  function ByteChunksFrom(chunk: seq<RawRow>, rows: seq<RawRow>, maxRows: nat, maxBytes: nat): seq<seq<RawRow>>
    decreases |rows|
  {
    if rows == [] then (if chunk == [] then [] else [chunk])
    else if Closes(chunk, rows[0], maxRows, maxBytes)
      then [chunk] + ByteChunksFrom([rows[0]], rows[1..], maxRows, maxBytes)
    else ByteChunksFrom(chunk + [rows[0]], rows[1..], maxRows, maxBytes)
  }

  datatype Limits = Limits(size: nat, balanceRows: nat, balanceBytes: nat, blocks: nat, rows: nat, elapsedMs: nat)

  function ChunksOf(t: RawTable, rows: seq<RawRow>, limits: Limits): seq<seq<RawRow>>
    requires limits.size > 0
  {
    if t == BalanceObservations then ByteChunksFrom([], rows, limits.balanceRows, limits.balanceBytes)
    else CountChunks(rows, limits.size)
  }

  function Flat(chunks: seq<seq<RawRow>>): seq<RawRow> {
    if chunks == [] then [] else chunks[0] + Flat(chunks[1..])
  }

  // ---------------------------------------------------------------- inserts

  /** Replacing by key: the last version of a key wins. */
  function Replaced(table: map<RawKey, RawRow>, rows: seq<RawRow>): map<RawKey, RawRow> {
    if rows == [] then table else Replaced(table, rows[..|rows|-1])[KeyOf(rows[|rows|-1]) := rows[|rows|-1]]
  }

  function Insert(db: RawDb, left: nat, rows: seq<RawRow>): Outcome {
    if left == 0 then Outcome(db, left, false)
    else Outcome(db.(rows := Replaced(db.rows, rows)), left - 1, true)
  }

  function InsertChunks(db: RawDb, left: nat, chunks: seq<seq<RawRow>>): Outcome
    decreases |chunks|
  {
    if chunks == [] then Outcome(db, left, true)
    else
      var o := Insert(db, left, chunks[0]);
      if o.ok then InsertChunks(o.db, o.left, chunks[1..]) else o
  }

  function FlushTables(db: RawDb, left: nat, b: Buffers, tables: seq<RawTable>, limits: Limits): Outcome
    requires limits.size > 0
    decreases |tables|
  {
    if tables == [] then Outcome(db, left, true)
    else
      var o := InsertChunks(db, left, ChunksOf(tables[0], BufferOf(b, tables[0]), limits));
      if o.ok then FlushTables(o.db, o.left, b, tables[1..], limits) else o
  }

  function SaveCheckpoint(o: Outcome, head: Head): Outcome {
    if !o.ok then o
    else if o.left == 0 then o.(ok := false)
    else Outcome(o.db.(checkpoint := Some(head)), o.left - 1, true)
  }

  // ---------------------------------------------------------------- the flush policy

  datatype FlushState = FlushState(pendingBlocks: nat, pendingRows: nat, msSinceLastFlush: nat, atChainHead: bool,
                                   reachedRangeEnd: bool)

  predicate ShouldFlush(s: FlushState, limits: Limits) {
    || s.atChainHead || s.reachedRangeEnd
    || s.pendingBlocks >= limits.blocks || s.pendingRows >= limits.rows || s.msSinceLastFlush >= limits.elapsedMs
  }

  /** The largest single table's buffer. */
  function LargestBuffer(b: Buffers, tables: seq<RawTable>): nat {
    if tables == [] then 0 else Max(LargestBuffer(b, tables[..|tables|-1]), |BufferOf(b, tables[|tables|-1])|)
  }

  // ---------------------------------------------------------------- one process

  datatype Proc = Proc(buffers: Buffers, rangeFinalized: bool)

  datatype Step = Step(out: Outcome, proc: Proc)

  /** The processor's report about a batch: its last block, and what the flush policy looks at. */
  datatype TxInfo = TxInfo(next: Head, isOnTop: bool, msSinceLastFlush: nat)

  predicate ReachedEnd(range: Option<Range>, height: int) {
    range.Some? && height >= range.value.toBlock
  }

  /** Validation writes the completed row (one statement) or throws; `valid` is its verdict. */
  function FinalizeRange(o: Outcome, p: Proc, valid: bool): Step {
    if !o.ok || p.rangeFinalized then Step(o, p)
    else if !valid || o.left == 0 then Step(o.(ok := false), p)
    else Step(Outcome(o.db.(finalized := true), o.left - 1, true), p.(rangeFinalized := true))
  }

  function Transact(range: Option<Range>, limits: Limits, db: RawDb, left: nat, p: Proc, rows: seq<RawRow>,
                    info: TxInfo, valid: bool): Step
    requires limits.size > 0
  {
    var b := AllBuffered(p.buffers, rows);
    var end := ReachedEnd(range, info.next.height);
    if !ShouldFlush(FlushState(|BufferOf(b, Blocks)|, LargestBuffer(b, FLUSH_ORDER), info.msSinceLastFlush,
                               info.isOnTop, end), limits)
    then Step(Outcome(db, left, true), p.(buffers := b))
    else
      var o := SaveCheckpoint(FlushTables(db, left, b, FLUSH_ORDER, limits), info.next);
      var q := p.(buffers := NoRows());
      if range.Some? && !p.rangeFinalized && end then FinalizeRange(o, q, valid) else Step(o, q)
  }

  /** A range that starts at genesis and has no checkpoint resumes before block zero. */
  function ResumeHead(db: RawDb, range: Option<Range>): Head {
    if range.Some? && range.value.fromBlock == 0 && db.checkpoint.None? then Head(-1, "0x")
    else db.checkpoint.Or(Head(0, "0x"))
  }
}
