/** The price writer's objects. */
module PublicationWriter {
  // Each method is tied to the function of the same name in `Publication`, whose runs `PublicationRuns` covers.

  import opened Options
  import opened Publication
  import opened PublicationSafety

  /** The server: durable tables, and the number of statements it completes before the cut. */
  class ClickHouse {
    const bucket: int -> int
    var db: Tables
    var left: nat

    constructor (bucket: int -> int, db: Tables, left: nat)
      ensures this.bucket == bucket && this.db == db && this.left == left
    {
      this.bucket, this.db, this.left := bucket, db, left;
    }

    /** One atomic insert statement. */
    method Insert(rows: seq<Row>) returns (ok: bool)
      modifies this
      ensures ok == (old(left) > 0)
      ensures ok ==> db == Written(bucket, old(db), rows) && left == old(left) - 1
      ensures !ok ==> db == old(db) && left == old(left)
    {
      ok := left > 0;
      if ok {
        db, left := Written(bucket, db, rows), left - 1;
      }
    }
  }

  lemma {:induction false} PutAppends(acc: seq<Row>, r: Row)
    requires forall x <- acc :: KeyOf(x) != KeyOf(r)
    ensures Put(acc, r) == acc + [r]
  {
    if acc != [] {
      assert acc == [acc[0]] + acc[1..];
      PutAppends(acc[1..], r);
    }
  }

  lemma {:induction false} PutReplaces(acc: seq<Row>, r: Row, i: nat)
    requires i < |acc| && DistinctKeys(acc) && KeyOf(acc[i]) == KeyOf(r)
    ensures Put(acc, r) == acc[i := r]
  {
    if i > 0 {
      assert KeyOf(acc[0]) != KeyOf(acc[i]);
      PutReplaces(acc[1..], r, i - 1);
    }
  }

  lemma UniqueStep(rows: seq<Row>, i: nat)
    requires i < |rows|
    ensures UniqueByKey(rows[..i+1]) == Put(UniqueByKey(rows[..i]), rows[i])
    ensures DistinctKeys(UniqueByKey(rows[..i]))
  {
    assert rows[..i+1][..i] == rows[..i];
    UniqueByKeyIsKeyed(rows[..i]);
  }

  /** Keyed de-duplication through a map from key to position. */
  method UniqueRowsByKey(rows: seq<Row>) returns (unique: seq<Row>)
    ensures unique == UniqueByKey(rows)
  {
    hide UniqueByKey, Put, DistinctKeys, KeyOf;
    unique := [];
    var at: map<Key, nat> := map[];
    NothingUnique();
    assert rows[..0] == [];
    for i := 0 to |rows|
      invariant unique == UniqueByKey(rows[..i])
      invariant forall x <- unique :: KeyOf(x) in at
      invariant forall k <- at :: at[k] < |unique| && KeyOf(unique[at[k]]) == k
    {
      var r := rows[i];
      UniqueStep(rows, i);
      if KeyOf(r) in at {
        PutReplaces(unique, r, at[KeyOf(r)]);
        unique := unique[at[KeyOf(r)] := r];
      } else {
        PutAppends(unique, r);
        at := at[KeyOf(r) := |unique|];
        unique := unique + [r];
      }
    }
    assert rows[..|rows|] == rows;
  }

  lemma NothingUnique()
    ensures UniqueByKey([]) == []
  {
  }

  lemma {:induction false} FreshAppends(rows: seq<Row>, r: Row, present: set<Key>)
    ensures Fresh(rows + [r], present) == Fresh(rows, present) + Fresh([r], present)
  {
    if rows == [] {
      assert rows + [r] == [r];
    } else {
      assert (rows + [r])[1..] == rows[1..] + [r];
      FreshAppends(rows[1..], r, present);
    }
  }

  lemma BufferNothing(b: Buffers)
    ensures AllBuffered(b, []) == b
  {
  }

  lemma BufferStep(b: Buffers, rows: seq<Row>, i: nat)
    requires i < |rows|
    ensures AllBuffered(b, rows[..i+1]) == Buffered(AllBuffered(b, rows[..i]), rows[i])
  {
    assert rows[..i+1][..i] == rows[..i];
  }

  lemma NextChunk(bucket: int -> int, db: Tables, left: nat, rows: seq<Row>, index: nat, size: nat)
    requires index < |rows| && size > 0
    ensures var o := InsertRows(bucket, db, left, rows[index..index+Min(size, |rows| - index)]);
            InsertChunks(bucket, db, left, rows[index..], size)
            == (if o.ok then InsertChunks(bucket, o.db, o.left, if index + size <= |rows| then rows[index+size..]
                                          else [], size) else o)
  {
    hide InsertRows;
    var n, rest := Min(size, |rows| - index), rows[index..];
    assert rest[..n] == rows[index..index+n] && rest[n..] == rows[index+n..];
    assert index + size > |rows| ==> rest[n..] == [];
  }

  lemma NoChunk(bucket: int -> int, db: Tables, left: nat, size: nat)
    requires size > 0
    ensures InsertChunks(bucket, db, left, [], size) == Outcome(db, left, true)
  {
  }

  class ClickHouseStore {
    const client: ClickHouse
    const size: nat
    const defer: bool
    var batch: Buffers
    var deferred: Buffers

    ghost predicate Valid()
      reads this
    {
      size > 0 && Typed(batch) && Typed(deferred)
    }

    constructor (client: ClickHouse, size: nat, defer: bool)
      requires size > 0
      ensures Valid() && this.client == client && this.size == size && this.defer == defer
      ensures batch == NO_ROWS && deferred == NO_ROWS
    {
      this.client, this.size, this.defer := client, size, defer;
      batch, deferred := NO_ROWS, NO_ROWS;
    }

    /** The per-table add methods: rows go to the end of their own table's buffer. */
    method Add(rows: seq<Row>)
      requires Valid()
      modifies this`batch
      ensures Valid() && batch == AllBuffered(old(batch), rows)
    {
      hide AllBuffered, Buffered, Typed;
      BufferNothing(batch);
      assert rows[..0] == [];
      for i := 0 to |rows|
        invariant Valid() && batch == AllBuffered(old(batch), rows[..i])
      {
        BufferStep(old(batch), rows, i);
        AddRow(rows[i]);
      }
      assert rows[..|rows|] == rows;
    }

    method AddRow(row: Row)
      requires Valid()
      modifies this`batch
      ensures Valid() && batch == Buffered(old(batch), row)
    {
      BufferedKeys(batch, row);
      match row {
        case Block(_, _, _) => batch := batch.(blocks := batch.blocks + [row]);
        case Price(_, _, _, _, _, _) => batch := batch.(prices := batch.prices + [row]);
        case Trade(_, _, _, _, _) => batch := batch.(trades := batch.trades + [row]);
        case Asset(_, _) => batch := batch.(assets := batch.assets + [row]);
        case Upgrade(_, _, _) => batch := batch.(upgrades := batch.upgrades + [row]);
        case ErrorName(_, _, _, _) => batch := batch.(errorNames := batch.errorNames + [row]);
      }
    }

    /** Probe-then-insert for one chunk: only keys that are absent reach a probed table. */
    method InsertRows(rows: seq<Row>) returns (ok: bool)
      modifies client
      ensures Outcome(client.db, client.left, ok) == Publication.InsertRows(client.bucket, old(client.db),
          old(client.left), rows)
    {
      var unique := UniqueRowsByKey(rows);
      var existing := Keys(client.db.log);
      var newRows: seq<Row> := [];
      for i := 0 to |unique|
        invariant newRows == Fresh(unique[..i], existing) && client.db == old(client.db)
          && client.left == old(client.left)
      {
        assert unique[..i+1] == unique[..i] + [unique[i]];
        FreshAppends(unique[..i], unique[i], existing);
        if !(Probed(unique[i]) && KeyOf(unique[i]) in existing) {
          newRows := newRows + [unique[i]];
        }
      }
      assert unique[..|unique|] == unique;
      if newRows == [] {
        return true;
      }
      for i := 0 to |newRows|
        invariant forall j :: 0 <= j < i ==> !BadTimestamp(newRows[j])
        invariant client.db == old(client.db) && client.left == old(client.left)
      {
        if BadTimestamp(newRows[i]) {
          return false;
        }
      }
      ok := client.Insert(newRows);
    }

    /** One table's rows, a bounded chunk per insert statement. */
    method FlushTable(rows: seq<Row>) returns (ok: bool)
      requires Valid()
      modifies client
      ensures Outcome(client.db, client.left, ok) == InsertChunks(client.bucket, old(client.db), old(client.left), rows,
                                                                  size)
    {
      hide InsertChunks, Publication.InsertRows;
      var index := 0;
      ok := true;
      assert rows[0..] == rows;
      while index < |rows|
        invariant 0 <= index
        invariant ok
        invariant InsertChunks(client.bucket, client.db, client.left, if index <= |rows| then rows[index..]
                               else [], size)
               == InsertChunks(client.bucket, old(client.db), old(client.left), rows, size)
      {
        var n := Min(size, |rows| - index);
        NextChunk(client.bucket, client.db, client.left, rows, index, size);
        ok := InsertRows(rows[index..index+n]);
        if !ok {
          return;
        }
        index := index + size;
      }
      NoChunk(client.bucket, client.db, client.left, size);
      assert rows[|rows|..] == [];
    }

    /** Blocks first, then prices, then the other tables; stops at the first statement that fails. */
    method FlushTables(b: Buffers) returns (ok: bool)
      requires Valid()
      modifies client
      ensures Outcome(client.db, client.left, ok) == InsertTables(client.bucket, old(client.db), old(client.left),
                                                                  InOrder(b), size)
    {
      var tables := [b.blocks, b.prices, b.trades, b.assets, b.upgrades, b.errorNames];
      ok := true;
      for i := 0 to |tables|
        invariant ok
        invariant InsertTables(client.bucket, client.db, client.left, tables[i..], size)
               == InsertTables(client.bucket, old(client.db), old(client.left), tables, size)
      {
        assert tables[i..][0] == tables[i] && tables[i..][1..] == tables[i+1..];
        ok := FlushTable(tables[i]);
        if !ok {
          return;
        }
      }
    }

    method StageCurrentBatches()
      requires Valid()
      modifies this`batch, this`deferred
      ensures Valid() && batch == NO_ROWS && deferred == Staged(old(deferred), old(batch))
    {
      deferred := Buffers(deferred.blocks + batch.blocks, deferred.prices + batch.prices,
                          deferred.trades + batch.trades, deferred.assets + batch.assets,
                          deferred.upgrades + batch.upgrades, deferred.errorNames + batch.errorNames);
      batch := NO_ROWS;
    }

    /** The deferred rows stay in memory until every table took them. */
    method PublishDeferred() returns (ok: bool)
      requires Valid()
      modifies this`batch, this`deferred, client
      ensures Valid() && batch == NO_ROWS
      ensures deferred == if ok then NO_ROWS else Staged(old(deferred), old(batch))
      ensures Outcome(client.db, client.left, ok)
           == InsertTables(client.bucket, old(client.db), old(client.left), InOrder(Staged(old(deferred), old(batch))),
                           size)
    {
      StageCurrentBatches();
      ok := FlushTables(deferred);
      if ok {
        deferred := NO_ROWS;
      }
    }

    method FlushAll() returns (ok: bool)
      requires Valid()
      modifies this`batch, this`deferred, client
      ensures Valid() && batch == NO_ROWS
      ensures deferred == if defer then Staged(old(deferred), old(batch)) else old(deferred)
      ensures Outcome(client.db, client.left, ok)
           == if defer then Outcome(old(client.db), old(client.left), true)
              else InsertTables(client.bucket, old(client.db), old(client.left), InOrder(old(batch)), size)
    {
      if defer {
        StageCurrentBatches();
        return true;
      }
      var rows := batch;
      batch := NO_ROWS;
      ok := FlushTables(rows);
    }

    method SaveCheckpoint(height: int) returns (ok: bool)
      modifies client
      ensures Outcome(client.db, client.left, ok) == Publication.SaveCheckpoint(Outcome(old(client.db),
          old(client.left), true), height)
    {
      ok := client.left > 0;
      if ok {
        client.db, client.left := client.db.(checkpoint := Some(height)), client.left - 1;
      }
    }
  }

  class Database {
    const cfg: Config
    const store: ClickHouseStore
    var pendingCheckpoint: Option<int>
    var deferredPublished: bool

    ghost predicate Valid()
      reads this, store
    {
      store.Valid() && store.size == cfg.size && store.defer == cfg.defer
    }

    /** The memory a crash drops. */
    ghost function Memory(): Proc
      reads this, store
    {
      Proc(store.batch, store.deferred, pendingCheckpoint, deferredPublished)
    }

    /** Connecting starts with empty memory and resumes after the durable checkpoint. */
    constructor (cfg: Config, client: ClickHouse)
      requires cfg.size > 0
      ensures Valid() && fresh(store) && this.cfg == cfg && store.client == client && Memory() == FRESH_PROC
    {
      this.cfg := cfg;
      store := new ClickHouseStore(client, cfg.size, cfg.defer);
      pendingCheckpoint, deferredPublished := None, false;
    }

    method Connect() returns (head: int)
      ensures head == ResumeHead(cfg, store.client.db)
    {
      match store.client.db.checkpoint
      case Some(last) => head := if cfg.fromGenesis then -1 else last;
      case None => head := if cfg.fromGenesis then -1 else 0;
    }

    method Transact(rows: seq<Row>, next: int) returns (ok: bool)
      requires Valid()
      modifies this, store, store.client
      ensures Valid()
      ensures var client := store.client;
              var step := Publication.Transact(cfg, client.bucket, old(client.db), old(client.left), old(Memory()),
                                               rows, next);
              Outcome(client.db, client.left, ok) == step.out && (ok ==> Memory() == step.proc)
    {
      store.Add(rows);
      ok := store.FlushAll();
      if !ok {
        return;
      }
      if cfg.defer {
        pendingCheckpoint := Some(Max(pendingCheckpoint.Or(0), next));
        if !deferredPublished && cfg.publishAt.Some? && next >= cfg.publishAt.value {
          ok := PublishDeferred();
        }
      } else {
        ok := store.SaveCheckpoint(next);
      }
    }

    method PublishDeferred() returns (ok: bool)
      requires Valid()
      modifies this, store, store.client
      ensures Valid()
      ensures var client := store.client;
              var step := Publication.PublishDeferred(cfg, client.bucket, old(client.db), old(client.left),
                                                      old(Memory()));
              Outcome(client.db, client.left, ok) == step.out && Memory() == step.proc
    {
      if !cfg.defer {
        return true;
      }
      ok := store.PublishDeferred();
      if !ok {
        return;
      }
      if pendingCheckpoint.Some? {
        ok := store.SaveCheckpoint(pendingCheckpoint.value);
      }
      if ok {
        deferredPublished := true;
      }
    }
  }
}
