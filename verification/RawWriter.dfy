/** The raw writer objects. */
module RawWriter {
  // Each method is tied to the function of `RawPipeline` that `RawRuns` covers.
  import opened Options
  import opened BlockRanges
  import opened RawPipeline

  /** The server: durable tables, and the number of statements it completes before the cut. */
  class ClickHouse {
    var db: RawDb
    var left: nat

    constructor (db: RawDb, left: nat)
      ensures this.db == db && this.left == left
    {
      this.db, this.left := db, left;
    }

    /** One atomic insert into a table that replaces by key. */
    method Insert(rows: seq<RawRow>) returns (ok: bool)
      modifies this
      ensures Outcome(db, left, ok) == RawPipeline.Insert(old(db), old(left), rows)
    {
      ok := left > 0;
      if ok {
        var table := db.rows;
        for i := 0 to |rows|
          invariant table == Replaced(db.rows, rows[..i]) && db == old(db) && left == old(left)
        {
          assert rows[..i+1][..i] == rows[..i];
          table := table[KeyOf(rows[i]) := rows[i]];
        }
        assert rows[..|rows|] == rows;
        db, left := db.(rows := table), left - 1;
      }
    }
  }

  lemma ChunksFromAppend(done: seq<seq<RawRow>>, chunk: seq<RawRow>, rest: seq<seq<RawRow>>)
    ensures (done + [chunk]) + rest == done + ([chunk] + rest)
  {
  }

  lemma ByteChunkStep(chunk: seq<RawRow>, rows: seq<RawRow>, maxRows: nat, maxBytes: nat)
    requires rows != []
    ensures ByteChunksFrom(chunk, rows, maxRows, maxBytes)
         == if Closes(chunk, rows[0], maxRows, maxBytes)
           then [chunk] + ByteChunksFrom([] + [rows[0]], rows[1..], maxRows, maxBytes)
            else ByteChunksFrom(chunk + [rows[0]], rows[1..], maxRows, maxBytes)
    ensures Bytes(chunk + [rows[0]]) == Bytes(chunk) + rows[0].bytes
    ensures Bytes([] + [rows[0]]) == rows[0].bytes
  {
    assert (chunk + [rows[0]])[..|chunk|] == chunk;
    assert [] + [rows[0]] == [rows[0]];
    assert Bytes([rows[0]][..0]) == 0;
  }

  lemma ByteChunksEnd(chunk: seq<RawRow>, maxRows: nat, maxBytes: nat)
    ensures ByteChunksFrom(chunk, [], maxRows, maxBytes) == if chunk == [] then [] else [chunk]
    ensures Bytes([]) == 0
  {
  }

  class RawClickHouseStore {
    const client: ClickHouse
    const limits: Limits
    var batches: Buffers

    constructor (client: ClickHouse, limits: Limits)
      ensures this.client == client && this.limits == limits && batches == NoRows()
    {
      this.client, this.limits, batches := client, limits, NoRows();
    }

    /** The per-table add methods: rows go to the end of their own table's buffer. */
    method Add(rows: seq<RawRow>)
      modifies this`batches
      ensures batches == AllBuffered(old(batches), rows)
    {
      for i := 0 to |rows|
        invariant batches == AllBuffered(old(batches), rows[..i])
      {
        assert rows[..i+1][..i] == rows[..i];
        batches := batches[rows[i].table := BufferOf(batches, rows[i].table) + [rows[i]]];
      }
      assert rows[..|rows|] == rows;
    }

    method CountChunked(rows: seq<RawRow>) returns (chunks: seq<seq<RawRow>>)
      requires limits.size > 0
      ensures chunks == CountChunks(rows, limits.size)
    {
      chunks := [];
      var index := 0;
      while index < |rows|
        invariant 0 <= index
        invariant chunks + CountChunks(if index <= |rows| then rows[index..] else [], limits.size)
          == CountChunks(rows, limits.size)
      {
        var n := Min(limits.size, |rows| - index);
        ghost var rest := rows[index..];
        assert rest[..n] == rows[index..index+n] && rest[n..] == rows[index+n..];
        ChunksFromAppend(chunks, rest[..n], CountChunks(rest[n..], limits.size));
        chunks := chunks + [rows[index..index+n]];
        index := index + limits.size;
      }
    }

    /** The balance table's own chunker, bounded by rows and by serialized bytes. */
    method ByteChunked(rows: seq<RawRow>) returns (chunks: seq<seq<RawRow>>)
      ensures chunks == ByteChunksFrom([], rows, limits.balanceRows, limits.balanceBytes)
    {
      hide ByteChunksFrom, Bytes;
      chunks := [];
      var chunk: seq<RawRow> := [];
      var chunkBytes := 0;
      ByteChunksEnd(chunk, limits.balanceRows, limits.balanceBytes);
      for i := 0 to |rows|
        invariant chunkBytes == Bytes(chunk)
        invariant chunks + ByteChunksFrom(chunk, rows[i..], limits.balanceRows, limits.balanceBytes)
               == ByteChunksFrom([], rows, limits.balanceRows, limits.balanceBytes)
      {
        var row := rows[i];
        ghost var rest := rows[i..];
        assert rest[0] == row && rest[1..] == rows[i+1..];
        ByteChunkStep(chunk, rest, limits.balanceRows, limits.balanceBytes);
        if |chunk| > 0 && (|chunk| >= limits.balanceRows || chunkBytes + row.bytes > limits.balanceBytes) {
          ChunksFromAppend(chunks, chunk, ByteChunksFrom([] + [row], rest[1..], limits.balanceRows,
                                                         limits.balanceBytes));
          chunks := chunks + [chunk];
          chunk := [];
          chunkBytes := 0;
        }
        chunk := chunk + [row];
        chunkBytes := chunkBytes + row.bytes;
      }
      assert rows[|rows|..] == [];
      ByteChunksEnd(chunk, limits.balanceRows, limits.balanceBytes);
      assert chunks + [] == chunks;
      if |chunk| > 0 {
        chunks := chunks + [chunk];
      }
    }

    method FlushBatch(t: RawTable) returns (ok: bool)
      requires limits.size > 0
      modifies this`batches, client
      ensures batches == old(batches)[t := []]
      ensures Outcome(client.db, client.left, ok)
           == InsertChunks(old(client.db), old(client.left), ChunksOf(t, BufferOf(old(batches), t), limits))
    {
      var rows := BufferOf(batches, t);
      batches := batches[t := []];
      var chunks;
      if t == BalanceObservations {
        chunks := ByteChunked(rows);
      } else {
        chunks := CountChunked(rows);
      }
      ok := true;
      for i := 0 to |chunks|
        invariant ok && batches == old(batches)[t := []]
        invariant InsertChunks(client.db, client.left, chunks[i..])
          == InsertChunks(old(client.db), old(client.left), chunks)
      {
        assert chunks[i..][0] == chunks[i] && chunks[i..][1..] == chunks[i+1..];
        ok := client.Insert(chunks[i]);
        if !ok {
          return;
        }
      }
    }

    method PendingBlocks() returns (n: nat)
      ensures n == |BufferOf(batches, Blocks)|
    {
      n := |BufferOf(batches, Blocks)|;
    }

    method PendingRows() returns (n: nat)
      ensures n == LargestBuffer(batches, FLUSH_ORDER)
    {
      n := 0;
      for i := 0 to |FLUSH_ORDER|
        invariant n == LargestBuffer(batches, FLUSH_ORDER[..i])
      {
        assert FLUSH_ORDER[..i+1][..i] == FLUSH_ORDER[..i];
        n := Max(n, |BufferOf(batches, FLUSH_ORDER[i])|);
      }
      assert FLUSH_ORDER[..|FLUSH_ORDER|] == FLUSH_ORDER;
    }

    /** Drains the given tables in order, and stops at the first statement that fails. */
    method FlushInOrder(tables: seq<RawTable>) returns (ok: bool)
      requires limits.size > 0 && forall i, j :: 0 <= i < j < |tables| ==> tables[i] != tables[j]
      modifies this`batches, client
      ensures old(batches.Keys) <= batches.Keys
      ensures ok ==> forall t <- batches :: batches[t] == if t in tables then [] else BufferOf(old(batches), t)
      ensures Outcome(client.db, client.left, ok) == FlushTables(old(client.db), old(client.left), old(batches), tables,
                                                                 limits)
    {
      hide InsertChunks, ChunksOf;
      ok := true;
      ghost var was := batches;
      for i := 0 to |tables|
        invariant ok && was.Keys <= batches.Keys
        invariant forall t <- batches :: batches[t] == if t in tables[..i] then [] else BufferOf(was, t)
        invariant forall j :: i <= j < |tables| ==> BufferOf(batches, tables[j]) == BufferOf(was, tables[j])
        invariant FlushTables(client.db, client.left, was, tables[i..], limits)
               == FlushTables(old(client.db), old(client.left), was, tables, limits)
      {
        ghost var rest := tables[i..];
        assert rest[0] == tables[i] && rest[1..] == tables[i+1..];
        assert tables[..i+1] == tables[..i] + [tables[i]];
        ok := FlushBatch(tables[i]);
        if !ok {
          return;
        }
      }
      assert tables[..|tables|] == tables;
    }

    /** Drains the ten tables. */
    method FlushAll() returns (ok: bool)
      requires limits.size > 0 && forall t :: t in batches
      modifies this`batches, client
      ensures ok ==> batches == NoRows()
      ensures Outcome(client.db, client.left, ok) == FlushTables(old(client.db), old(client.left), old(batches),
                                                                 FLUSH_ORDER, limits)
    {
      hide FlushTables;
      ok := FlushInOrder(FLUSH_ORDER);
      if ok {
        forall t ensures t in FLUSH_ORDER {
          EveryTableListed(t);
        }
        assert batches == NoRows();
      }
    }

    lemma EveryTableListed(t: RawTable)
      ensures t in FLUSH_ORDER
    {
      assert FLUSH_ORDER[0] == Blocks && FLUSH_ORDER[1] == Extrinsics && FLUSH_ORDER[2] == Calls
        && FLUSH_ORDER[3] == Events
          && FLUSH_ORDER[4] == Snapshots && FLUSH_ORDER[5] == BalanceObservations && FLUSH_ORDER[6] == XcmActivity
          && FLUSH_ORDER[7] == BridgeEvidence && FLUSH_ORDER[8] == OperationTraces && FLUSH_ORDER[9] == ParserWarnings;
    }

    method SaveCheckpoint(head: Head) returns (ok: bool)
      modifies client
      ensures Outcome(client.db, client.left, ok) == RawPipeline.SaveCheckpoint(Outcome(old(client.db),
          old(client.left), true), head)
    {
      ok := client.left > 0;
      if ok {
        client.db, client.left := client.db.(checkpoint := Some(head)), client.left - 1;
      }
    }

    /** The range validation's verdict is given; a valid range is recorded as completed by one statement. */
    method FinalizeRange(valid: bool) returns (ok: bool)
      modifies client
      ensures ok == (valid && old(client.left) > 0)
      ensures client.db == if ok then old(client.db).(finalized := true) else old(client.db)
      ensures client.left == if ok then old(client.left) - 1 else old(client.left)
    {
      ok := valid && client.left > 0;
      if ok {
        client.db, client.left := client.db.(finalized := true), client.left - 1;
      }
    }
  }

  class RawDatabase {
    const store: RawClickHouseStore
    const range: Option<Range>
    var rangeFinalized: bool

    ghost predicate Valid()
      reads this, store
    {
      store.limits.size > 0 && forall t :: t in store.batches
    }

    /** The memory a crash drops. */
    ghost function Memory(): Proc
      reads this, store
    {
      Proc(store.batches, rangeFinalized)
    }

    constructor (client: ClickHouse, range: Option<Range>, limits: Limits)
      requires limits.size > 0
      ensures Valid() && fresh(store) && store.client == client && store.limits == limits && this.range == range
      ensures Memory() == Proc(NoRows(), false)
    {
      store := new RawClickHouseStore(client, limits);
      this.range, rangeFinalized := range, false;
      new;
      forall t ensures t in NoRows() {
        store.EveryTableListed(t);
      }
    }

    method Connect() returns (head: Head)
      ensures head == ResumeHead(store.client.db, range)
    {
      var state := store.client.db.checkpoint;
      if range.Some? && range.value.fromBlock == 0 && state.None? {
        return Head(-1, "0x");
      }
      head := if state.Some? then state.value else Head(0, "0x");
    }

    method Transact(rows: seq<RawRow>, info: TxInfo, valid: bool) returns (ok: bool)
      requires Valid()
      modifies this, store, store.client
      ensures var client := store.client;
              var step := RawPipeline.Transact(range, store.limits, old(client.db), old(client.left), old(Memory()),
                                               rows, info, valid);
              Outcome(client.db, client.left, ok) == step.out && (ok ==> Valid() && Memory() == step.proc)
    {
      hide FlushTables, LargestBuffer, AllBuffered;
      store.Add(rows);
      BufferedStaysTotal(old(store.batches), rows);
      var reachedRangeEnd := range.Some? && info.next.height >= range.value.toBlock;
      var pendingBlocks := store.PendingBlocks();
      var pendingRows := store.PendingRows();
      if !ShouldFlush(FlushState(pendingBlocks, pendingRows, info.msSinceLastFlush, info.isOnTop, reachedRangeEnd),
                      store.limits) {
        return true;
      }
      ok := store.FlushAll();
      if !ok {
        return;
      }
      ok := store.SaveCheckpoint(info.next);
      if !ok {
        return;
      }
      forall t ensures t in NoRows() {
        store.EveryTableListed(t);
      }
      if range.Some? && !rangeFinalized && reachedRangeEnd {
        ok := store.FinalizeRange(valid);
        if ok {
          rangeFinalized := true;
        }
      }
    }
  }

  lemma {:induction false} BufferedStaysTotal(b: Buffers, rows: seq<RawRow>)
    requires forall t :: t in b
    ensures forall t :: t in AllBuffered(b, rows)
  {
    if rows != [] {
      BufferedStaysTotal(b, rows[..|rows|-1]);
    }
  }
}
