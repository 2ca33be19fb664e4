/** What one flush of the price writer keeps. */
module PublicationSafety {
  import opened Options
  import opened Publication

  // ---------------------------------------------------------------- what the tables mean

  ghost predicate DistinctKeys(rows: seq<Row>) {
    forall i, j :: 0 <= i < j < |rows| ==> KeyOf(rows[i]) != KeyOf(rows[j])
  }

  /** No probed table holds a key twice. */
  ghost predicate NoKeyTwice(log: seq<Row>) {
    forall i, j :: 0 <= i < j < |log| && Probed(log[i]) ==> KeyOf(log[i]) != KeyOf(log[j])
  }

  /** At every moment of the log, a price that had become visible had its block row before it. */
  ghost predicate BlocksPrecedePrices(log: seq<Row>) {
    forall i :: 0 <= i < |log| && log[i].Price? ==> BlockKey(log[i].height) in Keys(log[..i])
  }

  predicate InCandle(bucket: int -> int, c: Candle, r: Row) {
    r.Price? && r.millis.Some? && r.millis.value > 0 && r.asset == c.asset && bucket(r.millis.value) == c.start
  }

  /** The volume of a candle, summed over the price rows that belong to it. */
  function Total(bucket: int -> int, c: Candle, rows: seq<Row>): Volume {
    if rows == [] then Volume(0, 0)
    else
      var v := Total(bucket, c, rows[..|rows|-1]);
      var r := rows[|rows|-1];
      if InCandle(bucket, c, r) then Volume(v.buy + r.buy, v.sell + r.sell) else v
  }

  function CandleVolume(candles: map<Candle, Volume>, c: Candle): Volume {
    if c in candles then candles[c] else Volume(0, 0)
  }

  /** A price row the writer accepts is in no candle exactly when it is a row of block 0 with timestamp zero. */
  lemma InNoCandleExactly(bucket: int -> int, r: Row)
    requires r.Price? && !BadTimestamp(r)
    ensures (forall c :: !InCandle(bucket, c, r)) <==> r.height == 0 && r.millis == Some(0)
  {
    if r.millis.value > 0 {
      assert InCandle(bucket, Candle(r.asset, bucket(r.millis.value)), r);
    }
  }

  /** Such a row is inserted and becomes visible, and the candles stay as they were. */
  lemma GenesisPriceReachesNoCandle(bucket: int -> int, db: Tables, left: nat, r: Row)
    requires r.Price? && r.height == 0 && r.millis == Some(0) && KeyOf(r) !in Keys(db.log) && left > 0
    ensures InsertRows(bucket, db, left, [r]) == Outcome(db.(log := db.log + [r]), left - 1, true)
    ensures !BadTimestamp(r) && forall c :: !InCandle(bucket, c, r)
  {
    assert [r][..0] == [] && [r][1..] == [];
    assert UniqueByKey([r]) == [r];
    assert Fresh([r], Keys(db.log)) == [r];
    assert AddToCandles(bucket, db.candles, [r]) == db.candles;
  }

  ghost predicate Sound(bucket: int -> int, db: Tables) {
    && NoKeyTwice(db.log)
    && BlocksPrecedePrices(db.log)
    && forall c :: CandleVolume(db.candles, c) == Total(bucket, c, db.log)
  }

  /** What inserts may do to the tables: append rows, and nothing to the checkpoint. */
  ghost predicate Extends(db: Tables, db': Tables) {
    db.log <= db'.log && db'.checkpoint == db.checkpoint
  }

  // ---------------------------------------------------------------- one insert

  lemma KeysJoin(a: seq<Row>, b: seq<Row>)
    ensures Keys(a + b) == Keys(a) + Keys(b)
  {
  }

  lemma {:induction false} PutAddsKey(acc: seq<Row>, r: Row)
    ensures Keys(Put(acc, r)) == Keys(acc) + {KeyOf(r)}
    ensures forall x <- Put(acc, r) :: x == r || x in acc
  {
    if acc != [] {
      var head, tail := acc[0], acc[1..];
      assert acc == [head] + tail;
      KeysJoin([head], tail);
      assert Keys([head]) == {KeyOf(head)} && Keys([r]) == {KeyOf(r)};
      hide Keys, KeyOf;
      if KeyOf(head) == KeyOf(r) {
        KeysJoin([r], tail);
      } else {
        PutAddsKey(tail, r);
        KeysJoin([head], Put(tail, r));
      }
    }
  }

  lemma DistinctCons(head: Row, tail: seq<Row>)
    ensures DistinctKeys([head] + tail) <==> DistinctKeys(tail) && forall x <- tail :: KeyOf(x) != KeyOf(head)
  {
    hide KeyOf;
    var all := [head] + tail;
    if DistinctKeys(all) {
      forall i, j | 0 <= i < j < |tail| ensures KeyOf(tail[i]) != KeyOf(tail[j]) {
        assert all[i + 1] == tail[i] && all[j + 1] == tail[j];
      }
      forall x <- tail ensures KeyOf(x) != KeyOf(head) {
        var i :| 0 <= i < |tail| && tail[i] == x;
        assert all[0] == head && all[i + 1] == x;
      }
    }
    if DistinctKeys(tail) && forall x <- tail :: KeyOf(x) != KeyOf(head) {
      forall i, j | 0 <= i < j < |all| ensures KeyOf(all[i]) != KeyOf(all[j]) {
        assert all[j] == tail[j - 1] && all[j] in tail;
        assert i > 0 ==> all[i] == tail[i - 1];
      }
    }
  }

  lemma {:induction false} PutIsKeyed(acc: seq<Row>, r: Row)
    requires DistinctKeys(acc)
    ensures DistinctKeys(Put(acc, r))
    ensures Keys(Put(acc, r)) == Keys(acc) + {KeyOf(r)}
    ensures forall x <- Put(acc, r) :: x == r || x in acc
  {
    PutAddsKey(acc, r);
    if acc != [] {
      hide Keys, KeyOf, DistinctKeys;
      var head, tail := acc[0], acc[1..];
      assert acc == [head] + tail;
      DistinctCons(head, tail);
      if KeyOf(head) == KeyOf(r) {
        DistinctCons(r, tail);
      } else {
        PutIsKeyed(tail, r);
        DistinctCons(head, Put(tail, r));
      }
    } else {
      hide Keys, KeyOf;
    }
  }

  lemma {:induction false} UniqueByKeyIsKeyed(rows: seq<Row>)
    ensures DistinctKeys(UniqueByKey(rows)) && Keys(UniqueByKey(rows)) == Keys(rows)
    ensures forall x <- UniqueByKey(rows) :: x in rows
  {
    if rows != [] {
      UniqueByKeyIsKeyed(rows[..|rows|-1]);
      PutIsKeyed(UniqueByKey(rows[..|rows|-1]), rows[|rows|-1]);
      assert rows == rows[..|rows|-1] + [rows[|rows|-1]];
    }
  }

  lemma {:induction false} FreshIsTheAbsentPart(rows: seq<Row>, present: set<Key>)
    requires DistinctKeys(rows)
    ensures DistinctKeys(Fresh(rows, present))
    ensures forall x :: x in Fresh(rows, present) <==> x in rows && !(Probed(x) && KeyOf(x) in present)
  {
    if rows != [] {
      FreshIsTheAbsentPart(rows[1..], present);
      assert rows == [rows[0]] + rows[1..];
      assert forall x <- rows[1..] :: KeyOf(x) != KeyOf(rows[0]);
    }
  }

  lemma {:induction false} CandlesAddUp(bucket: int -> int, candles: map<Candle, Volume>, log: seq<Row>, rows: seq<Row>,
                                        c: Candle)
    requires CandleVolume(candles, c) == Total(bucket, c, log)
    ensures CandleVolume(AddToCandles(bucket, candles, rows), c) == Total(bucket, c, log + rows)
  {
    if rows == [] {
      assert log + rows == log;
    } else {
      var init, r := rows[..|rows|-1], rows[|rows|-1];
      CandlesAddUp(bucket, candles, log, init, c);
      assert (log + rows)[..|log + rows|-1] == log + init;
      assert (log + rows)[|log + rows|-1] == r;
    }
  }

  lemma WritingKeepsSound(bucket: int -> int, db: Tables, rows: seq<Row>)
    requires Sound(bucket, db) && DistinctKeys(rows)
    requires forall r <- rows :: Probed(r) ==> KeyOf(r) !in Keys(db.log)
    requires forall r <- rows :: r.Price? ==> BlockKey(r.height) in Keys(db.log)
    ensures Sound(bucket, Written(bucket, db, rows))
  {
    var log' := db.log + rows;
    forall i, j | 0 <= i < j < |log'| && Probed(log'[i]) ensures KeyOf(log'[i]) != KeyOf(log'[j]) {
      if i < |db.log| <= j {
        assert log'[j] == rows[j - |db.log|] && log'[i] in db.log;
        if Probed(log'[j]) {
          assert KeyOf(log'[i]) in Keys(db.log);
        }
      }
    }
    forall i | 0 <= i < |log'| && log'[i].Price? ensures BlockKey(log'[i].height) in Keys(log'[..i]) {
      if i < |db.log| {
        assert log'[..i] == db.log[..i];
      } else {
        assert log'[i] == rows[i - |db.log|];
        assert log'[..i] == db.log + rows[..i - |db.log|];
      }
    }
    forall c ensures CandleVolume(Written(bucket, db, rows).candles, c) == Total(bucket, c, log') {
      CandlesAddUp(bucket, db.candles, db.log, rows, c);
    }
  }

  /** An insert statement, cut off or not: sound tables stay sound, and success means every key is present. */
  lemma InsertRowsSafe(bucket: int -> int, db: Tables, left: nat, rows: seq<Row>)
    requires Sound(bucket, db)
    requires forall r <- rows :: r.Price? ==> BlockKey(r.height) in Keys(db.log)
    ensures var o := InsertRows(bucket, db, left, rows);
            Sound(bucket, o.db) && Extends(db, o.db) && (o.ok ==> Keys(rows) <= Keys(o.db.log))
  {
    var unique := UniqueByKey(rows);
    var absent := Fresh(unique, Keys(db.log));
    UniqueByKeyIsKeyed(rows);
    FreshIsTheAbsentPart(unique, Keys(db.log));
    WritingKeepsSound(bucket, db, absent);
    var o := InsertRows(bucket, db, left, rows);
    if o.ok {
      forall k <- Keys(rows) ensures k in Keys(o.db.log) {
        var r :| r in unique && KeyOf(r) == k;
        if r in absent {
          assert r in db.log + absent;
        }
      }
    }
  }

  lemma {:induction false} InsertChunksSafe(bucket: int -> int, db: Tables, left: nat, rows: seq<Row>, size: nat)
    requires size > 0 && Sound(bucket, db)
    requires forall r <- rows :: r.Price? ==> BlockKey(r.height) in Keys(db.log)
    ensures var o := InsertChunks(bucket, db, left, rows, size);
            Sound(bucket, o.db) && Extends(db, o.db) && (o.ok ==> Keys(rows) <= Keys(o.db.log))
    decreases |rows|
  {
    if rows != [] {
      hide InsertRows, Sound;
      var n := Min(size, |rows|);
      var o := InsertRows(bucket, db, left, rows[..n]);
      InsertRowsSafe(bucket, db, left, rows[..n]);
      if o.ok {
        InsertChunksSafe(bucket, o.db, o.left, rows[n..], size);
        KeysJoin(rows[..n], rows[n..]);
        assert rows == rows[..n] + rows[n..];
      }
    }
  }

  /** Each price's block row is already present or belongs to a table that comes earlier in the order. */
  ghost predicate Closed(present: set<Key>, tables: seq<seq<Row>>)
    decreases |tables|
  {
    tables != [] ==>
      && (forall r <- tables[0] :: r.Price? ==> BlockKey(r.height) in present)
      && Closed(present + Keys(tables[0]), tables[1..])
  }

  lemma {:induction false} ClosedGrows(present: set<Key>, more: set<Key>, tables: seq<seq<Row>>)
    requires Closed(present, tables) && present <= more
    ensures Closed(more, tables)
    decreases |tables|
  {
    if tables != [] {
      ClosedGrows(present + Keys(tables[0]), more + Keys(tables[0]), tables[1..]);
    }
  }

  function TableKeys(tables: seq<seq<Row>>): set<Key> {
    if tables == [] then {} else Keys(tables[0]) + TableKeys(tables[1..])
  }

  lemma {:induction false} InsertTablesSafe(bucket: int -> int, db: Tables, left: nat, tables: seq<seq<Row>>, size: nat)
    requires size > 0 && Sound(bucket, db) && Closed(Keys(db.log), tables)
    ensures var o := InsertTables(bucket, db, left, tables, size);
            Sound(bucket, o.db) && Extends(db, o.db) && (o.ok ==> TableKeys(tables) <= Keys(o.db.log))
    decreases |tables|
  {
    if tables != [] {
      InsertChunksSafe(bucket, db, left, tables[0], size);
      var o := InsertChunks(bucket, db, left, tables[0], size);
      if o.ok {
        ClosedGrows(Keys(db.log) + Keys(tables[0]), Keys(o.db.log), tables[1..]);
        InsertTablesSafe(bucket, o.db, o.left, tables[1..], size);
      }
    }
  }

  // ---------------------------------------------------------------- buffers

  function BufferKeys(b: Buffers): set<Key> {
    Keys(b.blocks) + Keys(b.prices) + Keys(b.trades) + Keys(b.assets) + Keys(b.upgrades) + Keys(b.errorNames)
  }

  lemma OrderedKeys(b: Buffers)
    ensures TableKeys(InOrder(b)) == BufferKeys(b)
  {
    var t := InOrder(b);
    assert t[1..][1..] == t[2..] && t[2..][1..] == t[3..] && t[3..][1..] == t[4..] && t[4..][1..] == t[5..];
    assert TableKeys(t[5..]) == Keys(b.errorNames) by { assert t[5..][1..] == []; }
    assert TableKeys(t[3..]) == Keys(b.assets) + (Keys(b.upgrades) + Keys(b.errorNames));
    assert TableKeys(t[1..]) == Keys(b.prices) + (Keys(b.trades) + TableKeys(t[3..]));
  }

  ghost predicate PricesHaveBlocks(present: set<Key>, b: Buffers) {
    forall r <- b.prices :: r.Price? ==> BlockKey(r.height) in present + Keys(b.blocks)
  }

  lemma OrderedIsClosed(present: set<Key>, b: Buffers)
    requires Typed(b) && PricesHaveBlocks(present, b)
    ensures Closed(present, InOrder(b))
  {
    var t := InOrder(b);
    assert t[1..][1..] == t[2..] && t[2..][1..] == t[3..] && t[3..][1..] == t[4..] && t[4..][1..] == t[5..];
    assert forall s: set<Key> :: Closed(s, t[5..]) by { assert t[5..][1..] == []; }
    assert forall s: set<Key> :: Closed(s, t[4..]);
    assert forall s: set<Key> :: Closed(s, t[3..]);
    assert forall s: set<Key> :: Closed(s, t[2..]);
    assert Closed(present + Keys(b.blocks), t[1..]);
  }

  lemma BufferedKeys(b: Buffers, r: Row)
    requires Typed(b)
    ensures Typed(Buffered(b, r)) && BufferKeys(Buffered(b, r)) == BufferKeys(b) + {KeyOf(r)}
  {
    match r
    case Block(_, _, _) => KeysAppend(b.blocks, r);
    case Price(_, _, _, _, _, _) => KeysAppend(b.prices, r);
    case Trade(_, _, _, _, _) => KeysAppend(b.trades, r);
    case Asset(_, _) => KeysAppend(b.assets, r);
    case Upgrade(_, _, _) => KeysAppend(b.upgrades, r);
    case ErrorName(_, _, _, _) => KeysAppend(b.errorNames, r);
  }

  lemma KeysAppend(rows: seq<Row>, r: Row)
    ensures Keys(rows + [r]) == Keys(rows) + {KeyOf(r)}
  {
  }

  lemma {:induction false} AllBufferedRows(b: Buffers, rows: seq<Row>)
    ensures forall r <- AllBuffered(b, rows).prices :: r in b.prices || r in rows
    ensures forall r :: r in b.blocks || (r.Block? && r in rows) ==> r in AllBuffered(b, rows).blocks
  {
    if rows != [] {
      var init, r := rows[..|rows|-1], rows[|rows|-1];
      AllBufferedRows(b, init);
      BufferedRow(AllBuffered(b, init), r);
      assert rows == init + [r] && AllBuffered(b, rows) == Buffered(AllBuffered(b, init), r);
      hide AllBuffered, Buffered;
    }
  }

  lemma BufferedRow(b: Buffers, r: Row)
    ensures Buffered(b, r).prices == b.prices + (if r.Price? then [r] else [])
    ensures Buffered(b, r).blocks == b.blocks + (if r.Block? then [r] else [])
  {
  }

  lemma {:induction false} AllBufferedKeys(b: Buffers, rows: seq<Row>)
    requires Typed(b)
    ensures Typed(AllBuffered(b, rows)) && BufferKeys(AllBuffered(b, rows)) == BufferKeys(b) + Keys(rows)
    ensures forall r <- AllBuffered(b, rows).prices :: r in b.prices || r in rows
    ensures forall r :: r in b.blocks || (r.Block? && r in rows) ==> r in AllBuffered(b, rows).blocks
  {
    hide Typed, BufferKeys, KeyOf, Buffered;
    AllBufferedRows(b, rows);
    if rows == [] {
      assert Keys(rows) == {};
    } else {
      var init, r := rows[..|rows|-1], rows[|rows|-1];
      AllBufferedKeys(b, init);
      BufferedKeys(AllBuffered(b, init), r);
      KeysAppend(init, r);
      assert rows == init + [r];
    }
  }

  // ---------------------------------------------------------------- bounded statements

  lemma {:induction false} FewerOnceUnique(rows: seq<Row>)
    ensures |UniqueByKey(rows)| <= |rows|
  {
    if rows != [] {
      FewerOnceUnique(rows[..|rows|-1]);
      PutAddsAtMostOne(UniqueByKey(rows[..|rows|-1]), rows[|rows|-1]);
    }
  }

  lemma {:induction false} PutAddsAtMostOne(acc: seq<Row>, r: Row)
    ensures |Put(acc, r)| <= |acc| + 1
  {
    if acc != [] { PutAddsAtMostOne(acc[1..], r); }
  }

  lemma {:induction false} FreshIsFewer(rows: seq<Row>, present: set<Key>)
    ensures |Fresh(rows, present)| <= |rows|
  {
    if rows != [] { FreshIsFewer(rows[1..], present); }
  }

  lemma StatementIsBounded(bucket: int -> int, db: Tables, left: nat, rows: seq<Row>, size: nat)
    requires |rows| <= size
    ensures var o := InsertRows(bucket, db, left, rows);
            o.left <= left && |o.db.log| - |db.log| <= size * (left - o.left)
  {
    FewerOnceUnique(rows);
    FreshIsFewer(UniqueByKey(rows), Keys(db.log));
    hide UniqueByKey, Fresh, BadTimestamp, AddToCandles, Keys;
  }

  /** A flush writes at most a chunk's worth of rows with each statement it uses. */
  lemma {:induction false} StatementsAreBounded(bucket: int -> int, db: Tables, left: nat, rows: seq<Row>, size: nat)
    requires size > 0
    ensures var o := InsertChunks(bucket, db, left, rows, size);
            o.left <= left && |o.db.log| - |db.log| <= size * (left - o.left)
    decreases |rows|
  {
    if rows != [] {
      hide InsertRows;
      var n := Min(size, |rows|);
      var o := InsertRows(bucket, db, left, rows[..n]);
      StatementIsBounded(bucket, db, left, rows[..n], size);
      if o.ok {
        StatementsAreBounded(bucket, o.db, o.left, rows[n..], size);
        var o' := InsertChunks(bucket, o.db, o.left, rows[n..], size);
        assert size * (left - o'.left) == size * (left - o.left) + size * (o.left - o'.left);
      }
    }
  }
}
