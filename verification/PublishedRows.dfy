/** What the price writer's tables hold, row by row. */
module PublishedRows {
  // The laws about keys, restated in the columns of the rows themselves.
  import opened Options
  import opened Publication
  import opened PublicationSafety
  import opened PublicationRuns
  import opened PublicationProgress

  /** Two rows of one table about the same thing. */
  predicate SameSubject(r: Row, x: Row) {
    || (r.Block? && x.Block? && r.height == x.height)
    || (r.Price? && x.Price? && r.asset == x.asset && r.height == x.height)
    || (r.Trade? && x.Trade? && r.asset == x.asset && r.height == x.height && r.account == x.account)
    || (r.Asset? && x.Asset? && r.asset == x.asset)
    || (r.Upgrade? && x.Upgrade? && r.height == x.height && r.spec == x.spec && r.prevSpec == x.prevSpec)
    || (r.ErrorName? && x.ErrorName? && r.spec == x.spec && r.pallet == x.pallet && r.error == x.error)
  }

  lemma KeysAreSubjects(r: Row, x: Row)
    ensures KeyOf(r) == KeyOf(x) <==> SameSubject(r, x)
  {
  }

  ghost predicate Holds(rows: seq<Row>, r: Row) { exists x <- rows :: SameSubject(r, x) }

  lemma HoldsByKey(rows: seq<Row>, r: Row)
    ensures Holds(rows, r) <==> KeyOf(r) in Keys(rows)
  {
    forall x <- rows ensures KeyOf(x) == KeyOf(r) <==> SameSubject(r, x) {
      KeysAreSubjects(x, r);
    }
  }

  // ---------------------------------------------------------------- one insert

  /** The last row about its subject. */
  ghost predicate IsLast(rows: seq<Row>, x: Row) {
    exists i :: 0 <= i < |rows| && rows[i] == x && forall j :: i < j < |rows| ==> !SameSubject(rows[j], x)
  }

  lemma {:induction false} PutMembers(acc: seq<Row>, r: Row, x: Row)
    requires DistinctKeys(acc)
    ensures x in Put(acc, r) <==> x == r || (x in acc && !SameSubject(x, r))
  {
    if acc != [] {
      var head, tail := acc[0], acc[1..];
      assert acc == [head] + tail;
      KeysAreSubjects(head, r);
      KeysAreSubjects(x, r);
      assert forall y <- tail :: KeyOf(y) != KeyOf(head);
      PutMembers(tail, r, x);
    }
  }

  lemma IsLastNext(init: seq<Row>, r: Row, x: Row)
    ensures IsLast(init + [r], x) <==> x == r || (IsLast(init, x) && !SameSubject(x, r))
  {
    hide SameSubject;
    SubjectsAreMutual(r, x);
    var rows := init + [r];
    if x == r { assert rows[|init|] == x; }
    if IsLast(init, x) && !SameSubject(x, r) {
      var i :| 0 <= i < |init| && init[i] == x && forall j :: i < j < |init| ==> !SameSubject(init[j], x);
      assert rows[i] == x;
    }
    if IsLast(rows, x) && x != r {
      var i :| 0 <= i < |rows| && rows[i] == x && forall j :: i < j < |rows| ==> !SameSubject(rows[j], x);
      assert init[i] == x && rows[|init|] == r;
      assert forall j :: 0 <= j < |init| ==> init[j] == rows[j];
    }
  }

  lemma SubjectsAreMutual(r: Row, x: Row)
    ensures SameSubject(r, x) <==> SameSubject(x, r)
  {
  }

  /** De-duplication keeps exactly the last row about each subject, once. */
  lemma {:induction false} UniqueKeepsTheLast(rows: seq<Row>)
    ensures forall x :: x in UniqueByKey(rows) <==> IsLast(rows, x)
    ensures forall i, j :: 0 <= i < j < |UniqueByKey(rows)| ==> !SameSubject(UniqueByKey(rows)[i], UniqueByKey(rows)[j])
  {
    hide SameSubject, KeyOf;
    UniqueByKeyIsKeyed(rows);
    forall i, j | 0 <= i < j < |UniqueByKey(rows)|
      ensures !SameSubject(UniqueByKey(rows)[i], UniqueByKey(rows)[j])
    {
      KeysAreSubjects(UniqueByKey(rows)[i], UniqueByKey(rows)[j]);
    }
    if rows != [] {
      var init, last := rows[..|rows|-1], rows[|rows|-1];
      UniqueKeepsTheLast(init);
      UniqueByKeyIsKeyed(init);
      assert rows == init + [last];
      forall x ensures x in UniqueByKey(rows) <==> IsLast(rows, x) {
        PutMembers(UniqueByKey(init), last, x);
        IsLastNext(init, last, x);
      }
    }
  }

  /** Asset and error names are written again; of the other tables only rows about something new. */
  ghost predicate IsNew(log: seq<Row>, x: Row) {
    x.Asset? || x.ErrorName? || !Holds(log, x)
  }

  /** A price without a usable time: missing, negative, or zero at another block than 0. */
  predicate Timeless(x: Row) {
    x.Price? && (x.millis.None? || x.millis.value < 0 || (x.millis.value == 0 && x.height != 0))
  }

  ghost predicate ToWrite(log: seq<Row>, rows: seq<Row>, x: Row) { IsLast(rows, x) && IsNew(log, x) }

  lemma FreshIsToWrite(log: seq<Row>, rows: seq<Row>, x: Row)
    ensures x in Fresh(UniqueByKey(rows), Keys(log)) <==> ToWrite(log, rows, x)
  {
    UniqueByKeyIsKeyed(rows);
    UniqueKeepsTheLast(rows);
    FreshIsTheAbsentPart(UniqueByKey(rows), Keys(log));
    HoldsByKey(log, x);
    hide SameSubject, KeyOf, UniqueByKey, IsLast, Fresh;
  }

  /** What an insert statement does: refuse a price without a usable time, or append what is to be written, once. */
  lemma InsertWritesExactly(bucket: int -> int, db: Tables, left: nat, rows: seq<Row>)
    ensures var o := InsertRows(bucket, db, left, rows);
            && (o.ok <==> (forall x | ToWrite(db.log, rows, x) :: !Timeless(x) && left > 0))
            && (!o.ok ==> o.db == db)
            && (o.ok ==> db.log <= o.db.log && o.db.checkpoint == db.checkpoint
                         && forall x :: x in o.db.log[|db.log|..] <==> ToWrite(db.log, rows, x))
  {
    var absent := Fresh(UniqueByKey(rows), Keys(db.log));
    forall x ensures x in absent <==> ToWrite(db.log, rows, x) {
      FreshIsToWrite(db.log, rows, x);
    }
    UniqueByKeyIsKeyed(rows);
    FreshIsTheAbsentPart(UniqueByKey(rows), Keys(db.log));
    assert forall x <- absent :: x in rows && (Timeless(x) <==> BadTimestamp(x));
    hide Fresh, UniqueByKey, ToWrite, Timeless, BadTimestamp, AddToCandles;
    assert (db.log + absent)[|db.log|..] == absent;
    assert absent != [] ==> absent[0] in absent;
  }

  // ---------------------------------------------------------------- every run

  /** No block, price, trade or upgrade is stored twice. */
  ghost predicate NothingTwice(log: seq<Row>) {
    forall i, j :: 0 <= i < j < |log| && !log[i].Asset? && !log[i].ErrorName? ==> !SameSubject(log[i], log[j])
  }

  /** Everything one process made for the block has its row. */
  ghost predicate RowsPublished(source: RowSource, epoch: nat, h: int, log: seq<Row>) {
    exists e: nat :: e <= epoch && forall r <- source(e, h) :: Holds(log, r)
  }

  lemma PublishedAreHeld(source: RowSource, epoch: nat, h: int, log: seq<Row>)
    requires BlockPublished(source, epoch, h, Keys(log))
    ensures RowsPublished(source, epoch, h, log)
  {
    var e: nat :| e <= epoch && Keys(source(e, h)) <= Keys(log);
    hide Holds;
    forall r <- source(e, h) ensures Holds(log, r) {
      assert KeyOf(r) in Keys(source(e, h));
      HoldsByKey(log, r);
    }
  }

  lemma SoundLogsHoldNothingTwice(bucket: int -> int, db: Tables)
    requires Sound(bucket, db)
    ensures NothingTwice(db.log)
    ensures forall i :: 0 <= i < |db.log| && db.log[i].Price? ==>
              exists j :: 0 <= j < i && db.log[j].Block? && db.log[j].height == db.log[i].height
  {
    forall i, j | 0 <= i < j < |db.log| && !db.log[i].Asset? && !db.log[i].ErrorName?
      ensures !SameSubject(db.log[i], db.log[j])
    {
      KeysAreSubjects(db.log[i], db.log[j]);
    }
    forall i | 0 <= i < |db.log| && db.log[i].Price?
      ensures exists j :: 0 <= j < i && db.log[j].Block? && db.log[j].height == db.log[i].height
    {
      assert BlockKey(db.log[i].height) in Keys(db.log[..i]);
      var r :| r in db.log[..i] && KeyOf(r) == BlockKey(db.log[i].height);
      var j :| 0 <= j < i && db.log[..i][j] == r;
      assert db.log[j] == r;
    }
  }

  /**
   After every run each row that some process made for a block up to the checkpoint has a row about the
   same thing in its table, nothing is stored twice, and every price was stored after a row of its block.
   */
  lemma EveryRunPublishesRows(cfg: Config, bucket: int -> int, source: RowSource, s: Run, actions: seq<Action>)
    requires ValidConfig(cfg) && WellFormed(source) && Initial(bucket, s)
    ensures var s' := After(cfg, bucket, source, s, actions);
            && NothingTwice(s'.db.log)
            && (s'.db.checkpoint.Some? ==>
                  forall h :: Base(cfg) <= h <= s'.db.checkpoint.value ==>
                    RowsPublished(source, s'.epoch, h, s'.db.log))
            && forall i :: 0 <= i < |s'.db.log| && s'.db.log[i].Price? ==>
                 exists j :: 0 <= j < i && s'.db.log[j].Block? && s'.db.log[j].height == s'.db.log[i].height
  {
    var s' := After(cfg, bucket, source, s, actions);
    EveryRunIsSafe(cfg, bucket, source, s, actions);
    SoundLogsHoldNothingTwice(bucket, s'.db);
    hide After, NothingTwice, RowsPublished, Sound;
    if s'.db.checkpoint.Some? {
      forall h | Base(cfg) <= h <= s'.db.checkpoint.value ensures RowsPublished(source, s'.epoch, h, s'.db.log) {
        PublishedAreHeld(source, s'.epoch, h, s'.db.log);
      }
    }
  }

  /** Restarting after any crashes, and not being cut off again, stores all of it up to the batch's last block. */
  lemma EveryCrashIsRecoverableInRows(cfg: Config, bucket: int -> int, source: RowSource, s: Run, actions: seq<Action>,
                                      next: int, left: nat, left': nat)
    requires ValidConfig(cfg) && WellFormed(source) && ValidSource(source) && Initial(bucket, s)
    requires var at := After(cfg, bucket, source, s, actions);
             && next >= FirstFed(cfg, ResumeHead(cfg, at.db))
             && left > |Owed(cfg, source, at, next)| && left' > |Owed(cfg, source, at, next)|
    ensures var s' := After(cfg, bucket, source, s, actions + [Connect, Batch(next, left), Publish(left', false)]);
            && s'.db.checkpoint == Some(next) && NothingTwice(s'.db.log)
            && forall h :: Base(cfg) <= h <= next ==> RowsPublished(source, s'.epoch, h, s'.db.log)
  {
    hide After, Owed, NothingTwice, RowsPublished, ValidSource, WellFormed;
    EveryCrashIsRecoverable(cfg, bucket, source, s, actions, next, left, left');
    EveryRunPublishesRows(cfg, bucket, source, s, actions + [Connect, Batch(next, left), Publish(left', false)]);
  }
}
