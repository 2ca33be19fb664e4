/** The reference service over its table and index. */
module ReferenceService {
  import opened Options
  import opened Sorting
  import opened Reference
  import opened ReferenceRuns

  /** The days without a close, in order. */
  method MissingSettledDays(index: KsmReferenceIndex, fromDay: int, toDay: int, today: int) returns (days: seq<int>)
    requires index.Valid()
    ensures forall d :: d in days <==> IsMissing(index.closes, fromDay, toDay, today, d)
    ensures Increasing(days)
  {
    var end := if toDay <= today - 1 then toDay else today - 1;
    days := [];
    var d := fromDay;
    while d <= end
      invariant fromDay <= d && (fromDay <= end ==> d <= end + 1)
      invariant forall e :: e in days <==> fromDay <= e < d && e <= end && e !in index.closes
      invariant Increasing(days)
    {
      if d !in index.closes {
        assert forall i :: 0 <= i < |days| ==> days[i] in days;
        days := days + [d];
      }
      d := d + 1;
    }
  }

  predicate DayBefore(a: ReferenceRow, b: ReferenceRow) { a.day < b.day }

  /** The last row offered for each wanted day, in day order. */
  ghost predicate IsSelection(out: seq<ReferenceRow>, rows: seq<ReferenceRow>, days: seq<int>) {
    && (forall i, j :: 0 <= i < j < |out| ==> out[i].day < out[j].day)
    && (forall row :: row in out <==> row.day in days && LastFor(rows, row.day) == Some(row))
  }

  method SelectRowsForDays(rows: seq<ReferenceRow>, days: seq<int>) returns (out: seq<ReferenceRow>)
    ensures IsSelection(out, rows, days)
  {
    var byDay: map<int, ReferenceRow> := map[];
    for i := 0 to |rows|
      invariant forall d :: d in byDay <==> d in days && LastFor(rows[..i], d).Some?
      invariant forall d <- byDay :: LastFor(rows[..i], d) == Some(byDay[d]) && byDay[d].day == d
    {
      assert rows[..i+1][..i] == rows[..i];
      if rows[i].day in days { byDay := byDay[rows[i].day := rows[i]]; }
    }
    assert rows[..|rows|] == rows;
    var values: seq<ReferenceRow> := [];
    var keys := byDay.Keys;
    while keys != {}
      invariant keys <= byDay.Keys
      invariant forall row :: row in values <==> row.day in byDay && row.day !in keys && byDay[row.day] == row
      invariant forall i, j :: 0 <= i < j < |values| ==> values[i].day != values[j].day
      decreases |keys|
    {
      ghost var some: int := AnyOf(keys);
      assert some in keys;
      var d :| d in keys;
      assert forall i :: 0 <= i < |values| ==> values[i] in values;
      keys, values := keys - {d}, values + [byDay[d]];
    }
    assert StrictWeakOrder(DayBefore);
    SortedIsSorted(DayBefore, values);
    out := Sorted(DayBefore, values);
    DistinctAfterSorting(values, out);
  }

  lemma DistinctAfterSorting(values: seq<ReferenceRow>, out: seq<ReferenceRow>)
    requires forall i, j :: 0 <= i < j < |values| ==> values[i].day != values[j].day
    requires InOrder(DayBefore, out) && multiset(out) == multiset(values)
    ensures forall i, j :: 0 <= i < j < |out| ==> out[i].day < out[j].day
  {
    forall i, j | 0 <= i < j < |out|
      ensures out[i].day < out[j].day
    {
      if out[i].day == out[j].day {
        assert out[i] in multiset(out) && out[j] in multiset(out);
        assert out[i] in values && out[j] in values;
        if out[i] == out[j] {
          TwiceInMultiset(out, i, j);
          TwiceMeansTwoPlaces(values, out[i]);
        }
      }
    }
  }

  lemma TwiceInMultiset<T>(s: seq<T>, i: nat, j: nat)
    requires i < j < |s| && s[i] == s[j]
    ensures multiset(s)[s[i]] >= 2
  {
    assert s == s[..j] + [s[j]] + s[j+1..];
    assert s[..j][i] == s[i] && s[i] in multiset(s[..j]);
  }

  lemma {:induction false} TwiceMeansTwoPlaces<T>(s: seq<T>, x: T)
    requires multiset(s)[x] >= 2
    ensures exists i, j :: 0 <= i < j < |s| && s[i] == x && s[j] == x
  {
    var n := |s| - 1;
    assert s == s[..n] + [s[n]];
    if s[n] == x {
      assert x in multiset(s[..n]);
      var i :| 0 <= i < n && s[..n][i] == x;
      assert s[i] == x && s[n] == x;
    } else {
      TwiceMeansTwoPlaces(s[..n], x);
      var i, j :| 0 <= i < j < |s[..n]| && s[..n][i] == x && s[..n][j] == x;
      assert s[i] == x && s[j] == x;
    }
  }

  /** After putting closes, a day has the last of them for that day, or what it had. */
  lemma {:induction false} PutCloses(b: Book, rows: seq<ReferenceRow>, d: int)
    requires forall r <- rows :: r.grain == Close
    ensures var put := PutAll(b, rows);
            && put.lives == b.lives
            && (d in put.closes <==> d in b.closes || LastFor(rows, d).Some?)
            && (d in put.closes ==>
                Some(put.closes[d]) == if LastFor(rows, d).Some? then LastFor(rows, d) else Some(b.closes[d]))
  {
    if rows != [] {
      assert rows[|rows|-1] in rows;
      PutCloses(b, rows[..|rows|-1], d);
    }
  }

  lemma SelectedDay(closes: map<int, ReferenceRow>, today: int, out: seq<ReferenceRow>, history: seq<ReferenceRow>,
                    wanted: seq<int>, d: int)
    requires IsSelection(out, history, wanted) && forall e :: e in wanted <==> IsUnsettled(closes, today, e)
    ensures var rows := ToStore(closes, today, history);
            && (d in rows <==> d in DaysOf(out))
            && (d in rows ==> rows[d] in out && rows[d].day == d)
  {
    hide IsUnsettled;
    LastForDay(history, d);
    var rows := ToStore(closes, today, history);
    if d in rows { assert rows[d] in out; }
    if d in DaysOf(out) {
      var r :| r in out && r.day == d;
    }
  }

  lemma OnlyRowOfDay(out: seq<ReferenceRow>, r: ReferenceRow, q: ReferenceRow)
    requires forall i, j :: 0 <= i < j < |out| ==> out[i].day < out[j].day
    requires r in out && q in out && r.day == q.day
    ensures r == q
  {
  }

  lemma StoredDay(b: Book, closes: map<int, ReferenceRow>, today: int, out: seq<ReferenceRow>,
                  history: seq<ReferenceRow>, wanted: seq<int>, d: int)
    requires IsSelection(out, history, wanted) && forall e :: e in wanted <==> IsUnsettled(closes, today, e)
    requires forall r <- out :: r.grain == Close
    ensures var put, sum := PutAll(b, out), b.closes + ToStore(closes, today, history);
            put.lives == b.lives && (d in put.closes <==> d in sum) && (d in sum ==> put.closes[d] == sum[d])
  {
    hide IsUnsettled, ToStore, PutAll, DaysOf, LastFor;
    PutCloses(b, out, d);
    LastForDay(out, d);
    SelectedDay(closes, today, out, history, wanted, d);
    var rows := ToStore(closes, today, history);
    if d in rows { OnlyRowOfDay(out, rows[d], LastFor(out, d).value); }
  }

  lemma SelectionIsStored(b: Book, closes: map<int, ReferenceRow>, today: int, out: seq<ReferenceRow>,
                          history: seq<ReferenceRow>, wanted: seq<int>)
    requires IsSelection(out, history, wanted) && forall d :: d in wanted <==> IsUnsettled(closes, today, d)
    requires forall r <- history :: r.grain == Close
    ensures PutAll(b, out) == b.(closes := b.closes + ToStore(closes, today, history))
  {
    hide IsUnsettled, ToStore, PutAll, DaysOf, LastFor;
    forall r <- out
      ensures r.grain == Close
    {
      LastForDay(history, r.day);
    }
    var put, sum := PutAll(b, out), b.closes + ToStore(closes, today, history);
    forall d
      ensures d in put.closes <==> d in sum
      ensures d in sum ==> put.closes[d] == sum[d]
    {
      StoredDay(b, closes, today, out, history, wanted, d);
    }
    StoredDay(b, closes, today, out, history, wanted, 0);
    assert put.closes.Keys == sum.Keys;
    assert put.closes == sum;
  }

  // ---------------------------------------------------------------- the table and the service

  /** The reference table, replacing by day and grain. */
  class ReferenceTable {
    var book: Book

    constructor (book: Book)
      ensures this.book == book
    {
      this.book := book;
    }

    method Insert(rows: seq<ReferenceRow>, completes: bool)
      modifies this
      ensures book == if completes then PutAll(old(book), rows) else old(book)
    {
      if completes { book := PutAll(book, rows); }
    }

    /** All rows: putting them into an empty index gives the table's contents. */
    method SelectAll() returns (rows: seq<ReferenceRow>)
      requires ValidBook(book)
      ensures PutAll(EMPTY_BOOK, rows) == book
    {
      var closes := RowsOf(book.closes, Close, EMPTY_BOOK, []);
      var both := RowsOf(book.lives, Live, Book(book.closes, map[]), closes);
      rows := both;
    }
  }

  function WithGrain(b: Book, grain: Grain, table: map<int, ReferenceRow>): Book {
    if grain == Live then b.(lives := table) else b.(closes := table)
  }

  /** Rows that put one grain's table on top of what earlier rows put. */
  method RowsOf(table: map<int, ReferenceRow>, grain: Grain, ghost before: Book, earlier: seq<ReferenceRow>)
    returns (rows: seq<ReferenceRow>)
    requires PutAll(EMPTY_BOOK, earlier) == before == WithGrain(before, grain, map[])
    requires forall d <- table :: table[d].day == d && table[d].grain == grain
    ensures PutAll(EMPTY_BOOK, rows) == WithGrain(before, grain, table)
  {
    hide Put, PutAll, WithGrain;
    rows := earlier;
    ghost var done: map<int, ReferenceRow> := map[];
    var days := table.Keys;
    while days != {}
      invariant days <= table.Keys
      invariant PutAll(EMPTY_BOOK, rows) == WithGrain(before, grain, done)
      invariant forall d :: d in done <==> d in table && d !in days
      invariant forall d <- done :: done[d] == table[d]
      decreases |days|
    {
      ghost var some: int := AnyOf(days);
      assert some in days;
      var d :| d in days;
      PutLast(rows, table[d]);
      PutGrain(before, done, table[d]);
      rows := rows + [table[d]];
      done, days := done[d := table[d]], days - {d};
    }
    assert forall d :: d in done <==> d in table;
    assert done.Keys == table.Keys;
    assert done == table;
  }

  lemma PutGrain(before: Book, done: map<int, ReferenceRow>, row: ReferenceRow)
    ensures Put(WithGrain(before, row.grain, done), row) == WithGrain(before, row.grain, done[row.day := row])
  {
  }

  lemma PutLast(rows: seq<ReferenceRow>, row: ReferenceRow)
    ensures PutAll(EMPTY_BOOK, rows + [row]) == Put(PutAll(EMPTY_BOOK, rows), row)
  {
    assert (rows + [row])[..|rows|] == rows;
  }

  const RELOAD_INTERVAL_MS := 300000
  const KSM_ASSET_ID := 1

  class KsmReferenceService {
    const client: ReferenceTable
    const liveWindowMs: int
    var index: KsmReferenceIndex
    var loadedAtMs: int
    var polling: bool
    var lastPollOkMs: int
    var lastSettleAttemptMs: int

    ghost predicate Valid()
      reads this, client, index
    {
      index.Valid() && ValidBook(client.book) && !polling
    }

    /** The table and the service, as the run properties see them. */
    ghost function State(): Pair
      reads this, client, index
    {
      Pair(client.book, Service(index.Contents(), lastPollOkMs, lastSettleAttemptMs))
    }

    /** A started service has loaded the table. */
    constructor (client: ReferenceTable, liveWindowMs: int, nowMs: int)
      requires ValidBook(client.book)
      ensures Valid() && fresh(index) && this.client == client && this.liveWindowMs == liveWindowMs
      ensures State() == Pair(client.book, Service(client.book, 0, 0))
    {
      var rows := client.SelectAll();
      this.client, this.liveWindowMs := client, liveWindowMs;
      index := new KsmReferenceIndex(rows);
      loadedAtMs, polling, lastPollOkMs, lastSettleAttemptMs := nowMs, false, 0, 0;
    }

    method Reload(nowMs: int)
      requires Valid()
      modifies this
      ensures Valid() && fresh(index) && loadedAtMs == nowMs
      ensures State() == old(State()).(service := old(State().service).(index := client.book))
    {
      var rows := client.SelectAll();
      index := new KsmReferenceIndex(rows);
      loadedAtMs := nowMs;
    }

    /** `completes` is false when the query fails: the loaded rows keep serving. */
    method RefreshIfStale(nowMs: int, completes: bool)
      requires Valid()
      modifies this
      ensures Valid()
      ensures nowMs - old(loadedAtMs) < 5 * 60 * 1000 || !completes ==> State() == old(State())
      ensures nowMs - old(loadedAtMs) >= 5 * 60 * 1000 ==> loadedAtMs == nowMs
      ensures nowMs - old(loadedAtMs) >= 5 * 60 * 1000 && completes ==> index.Contents() == client.book
    {
      if nowMs - loadedAtMs < RELOAD_INTERVAL_MS { return; }
      if completes {
        Reload(nowMs);
      } else {
        loadedAtMs := nowMs;
      }
    }

    method SettleRecent(today: int, c: Cycle)
      requires Valid() && (c.history.Some? ==> forall r <- c.history.value :: r.grain == Close)
      modifies this`lastSettleAttemptMs, index, client
      ensures Valid() && State() == SettleRecentDays(old(State()), today, c)
    {
      hide IsSelection, Put, ToStore;
      var wanted := MissingSettledDays(index, today - SETTLE_RECENT_DAYS, today, today);
      assert forall d :: d in wanted <==> IsUnsettled(index.closes, today, d);
      assert |wanted| > 0 ==> wanted[0] in wanted;
      assert |wanted| > 0 <==> NeedsSettling(index.closes, today);
      if |wanted| == 0 { return; }
      if c.nowMs - lastSettleAttemptMs < SETTLE_RETRY_MS { return; }
      lastSettleAttemptMs := c.nowMs;
      if c.history.None? { return; }
      var rows := SelectRowsForDays(c.history.value, wanted);
      ghost var closes, stored, indexed := index.closes, client.book, index.Contents();
      SelectionIsStored(stored, closes, today, rows, c.history.value, wanted);
      SelectionIsStored(indexed, closes, today, rows, c.history.value, wanted);
      PutAllKeepsValid(stored, rows);
      if |rows| == 0 { return; }
      client.Insert(rows, c.rowsStored);
      if !c.rowsStored { return; }
      for i := 0 to |rows|
        invariant index.Valid() && index.Contents() == PutAll(indexed, rows[..i])
        invariant client.book == PutAll(stored, rows) && index == old(index)
        invariant !polling && lastSettleAttemptMs == c.nowMs
      {
        assert rows[..i+1][..i] == rows[..i];
        index.PutRow(rows[i]);
      }
      assert rows[..|rows|] == rows;
    }

    /** One live cycle. A failing request or insert ends it with what it has done so far. */
    method PollOnce(c: Cycle)
      requires Valid() && (c.history.Some? ==> forall r <- c.history.value :: r.grain == Close)
      modifies this, index, client
      ensures Valid() && index == old(index) && State() == Poll(old(State()), c)
    {
      if polling { return; }
      polling := true;
      var today := UtcDayFromMs(c.nowMs);
      if c.price.None? {
        polling := false;
        return;
      }
      var row := ReferenceRow(today, Live, c.price.value, "coingecko-live");
      assert [row][..0] == [];
      assert PutAll(client.book, [row]) == Put(client.book, row);
      client.Insert([row], c.liveStored);
      if !c.liveStored {
        polling := false;
        return;
      }
      index.PutRow(row);
      lastPollOkMs := c.nowMs;
      polling := false;
      SettleRecent(today, c);
    }

    /** KSM at its anchor, or nothing. */
    method SeedFor(blockMs: nat, nowMs: int) returns (seed: map<int, string>)
      requires Valid()
      ensures exists anchor ::
        && IsAnchor(index.Contents(), blockMs, nowMs, liveWindowMs, 7, anchor)
        && seed == if anchor.Some? then map[1 := anchor.value.usdPrice] else map[]
    {
      var anchor := index.Lookup(blockMs, nowMs, liveWindowMs, MAX_SETTLED_STALENESS_DAYS);
      seed := if anchor.Some? then map[KSM_ASSET_ID := anchor.value.usdPrice] else map[];
    }
  }
}
