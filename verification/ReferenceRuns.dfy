/** The reference service over whole runs of polling, settling, reloading and restarting. */
module ReferenceRuns {
  import opened Options
  import opened Reference

  const SETTLE_RECENT_DAYS := 30
  const SETTLE_RETRY_MS := 3600000

  /** A recent day that has ended and has no close yet. */
  predicate IsMissing(closes: map<int, ReferenceRow>, fromDay: int, toDay: int, today: int, d: int) {
    fromDay <= d <= Min(toDay, today - 1) && d !in closes
  }

  /** The last row a source offers for a day. */
  function LastFor(rows: seq<ReferenceRow>, d: int): Option<ReferenceRow> {
    if rows == [] then None
    else if rows[|rows|-1].day == d then Some(rows[|rows|-1])
    else LastFor(rows[..|rows|-1], d)
  }

  function DaysOf(rows: seq<ReferenceRow>): set<int> { set r <- rows :: r.day }

  /** A missing day among those the service settles for itself. */
  predicate IsUnsettled(closes: map<int, ReferenceRow>, today: int, d: int) {
    IsMissing(closes, today - SETTLE_RECENT_DAYS, today, today, d)
  }

  /** The closes a settle stores, out of the history the source offered. */
  function ToStore(closes: map<int, ReferenceRow>, today: int, history: seq<ReferenceRow>): map<int, ReferenceRow> {
    map d | d in DaysOf(history) && IsUnsettled(closes, today, d) && LastFor(history, d).Some?
      :: LastFor(history, d).value
  }

  datatype Service = Service(index: Book, lastPollOkMs: int, lastSettleAttemptMs: int)

  /** The table, the running service, and a reload whose query has been answered but not yet taken in. */
  datatype World = World(table: Book, service: Option<Service>, reading: Option<Book>)

  /** One cycle: what the source offered (nothing when the request fails) and which inserts succeeded. */
  datatype Cycle = Cycle(nowMs: nat, price: Option<string>, liveStored: bool, history: Option<seq<ReferenceRow>>,
                         rowsStored: bool)

  datatype Pair = Pair(table: Book, service: Service)

  ghost predicate NeedsSettling(closes: map<int, ReferenceRow>, today: int) {
    exists d :: IsUnsettled(closes, today, d)
  }

  ghost function SettleRecentDays(p: Pair, today: int, c: Cycle): Pair {
    var s := p.service;
    if !NeedsSettling(s.index.closes, today) || c.nowMs - s.lastSettleAttemptMs < SETTLE_RETRY_MS then p
    else
      var tried := s.(lastSettleAttemptMs := c.nowMs);
      if c.history.None? || !c.rowsStored then p.(service := tried)
      else
        var rows := ToStore(s.index.closes, today, c.history.value);
        Pair(p.table.(closes := p.table.closes + rows), tried.(index := s.index.(closes := s.index.closes + rows)))
  }

  ghost function Poll(p: Pair, c: Cycle): Pair {
    if c.price.None? || !c.liveStored then p
    else
      var today := UtcDayFromMs(c.nowMs);
      var row := ReferenceRow(today, Live, c.price.value, "coingecko-live");
      SettleRecentDays(Pair(Put(p.table, row), p.service.(index := Put(p.service.index, row), lastPollOkMs := c.nowMs)),
                       today, c)
  }

  datatype Action = Start | Stop | BeginReload | EndReload | Tick(cycle: Cycle)

  ghost function Next(w: World, a: Action): World {
    match a
    case Start => World(w.table, Some(Service(w.table, 0, 0)), None)
    case Stop => World(w.table, None, None)
    case BeginReload => if w.service.Some? then w.(reading := Some(w.table)) else w
    case EndReload =>
      if w.service.Some? && w.reading.Some? then w.(service := Some(w.service.value.(index := w.reading.value)),
                                                    reading := None) else w
    case Tick(c) =>
      if w.service.None? then w
      else
        var p := Poll(Pair(w.table, w.service.value), c);
        World(p.table, Some(p.service), w.reading)
  }

  ghost function After(w: World, actions: seq<Action>): World {
    if actions == [] then w else Next(After(w, actions[..|actions|-1]), actions[|actions|-1])
  }

  /** Every close stored before is stored after, unchanged. */
  ghost predicate Kept(before: map<int, ReferenceRow>, after: map<int, ReferenceRow>) {
    forall d <- before :: d in after && after[d] == before[d]
  }

  lemma {:induction false} LastForDay(rows: seq<ReferenceRow>, d: int)
    ensures LastFor(rows, d).Some? ==> LastFor(rows, d).value.day == d && LastFor(rows, d).value in rows
    ensures LastFor(rows, d).Some? <==> d in DaysOf(rows)
  {
    if rows != [] {
      var init, last := rows[..|rows|-1], rows[|rows|-1];
      assert last in rows;
      LastForDay(init, d);
      if d in DaysOf(rows) && last.day != d {
        var r :| r in rows && r.day == d;
        assert r in init;
      }
    }
  }

  /**
   A cycle in which every request and insert succeeds stores exactly the recent ended days the source
   offers and the table lacks, each with the last row offered, and today's live row.
   */
  lemma CompletedCycleSettles(p: Pair, c: Cycle, d: int)
    requires p.service.index.closes == p.table.closes
    requires c.price.Some? && c.liveStored && c.history.Some? && c.rowsStored
    requires c.nowMs - p.service.lastSettleAttemptMs >= 60 * 60 * 1000
    ensures var closes, p', today := p.table.closes, Poll(p, c), UtcDayFromMs(c.nowMs);
            && (d in p'.table.closes
                <==> d in closes || (today - 30 <= d < today && d in DaysOf(c.history.value)))
            && (d in closes ==> p'.table.closes[d] == closes[d])
            && (d !in closes && d in p'.table.closes ==> Some(p'.table.closes[d]) == LastFor(c.history.value, d))
            && p'.service.index.closes == p'.table.closes
            && today in p'.table.lives && p'.table.lives[today].usdPrice == c.price.value
  {
    LastForDay(c.history.value, d);
    var today := UtcDayFromMs(c.nowMs);
    assert IsUnsettled(p.table.closes, today, d) ==> NeedsSettling(p.table.closes, today);
  }

  /** A day of the last thirty that has ended and is missing in the index. */
  ghost predicate LacksRecentDay(p: Pair, nowMs: nat) {
    var today := UtcDayFromMs(nowMs);
    exists d :: today - 30 <= d < today && d !in p.service.index.closes
  }

  /**
   A cycle without a price, or whose live row is not stored, changes nothing. Any other stores the live row
   and no other live row; it tries to settle exactly when a recent day is missing and the last try is an
   hour old, whether or not the try succeeds, and stores closes only if it does.
   */
  lemma CycleEffects(p: Pair, c: Cycle)
    ensures var p', today := Poll(p, c), UtcDayFromMs(c.nowMs);
            if c.price.None? || !c.liveStored then p' == p
            else
              var tries := LacksRecentDay(p, c.nowMs) && c.nowMs - p.service.lastSettleAttemptMs >= 60 * 60 * 1000;
              && p'.table.lives == p.table.lives[today := ReferenceRow(today, Live, c.price.value, "coingecko-live")]
              && p'.service.lastPollOkMs == c.nowMs
              && p'.service.lastSettleAttemptMs == (if tries then c.nowMs else p.service.lastSettleAttemptMs)
              && (!tries || c.history.None? || !c.rowsStored ==>
                    p'.table.closes == p.table.closes && p'.service.index.closes == p.service.index.closes)
  {
    var today := UtcDayFromMs(c.nowMs);
    if d :| today - 30 <= d < today && d !in p.service.index.closes {
      assert IsUnsettled(p.service.index.closes, today, d);
    }
    if NeedsSettling(p.service.index.closes, today) {
      var d :| IsUnsettled(p.service.index.closes, today, d);
      assert today - 30 <= d < today && d !in p.service.index.closes;
    }
  }

  // ---------------------------------------------------------------- stored closes

  /**
   A cycle at this time may store a close again: the hourly gate is open, and the index has lost a
   stored close of a recent ended day.
   */
  ghost predicate CanRewrite(p: Pair, nowMs: nat) {
    && nowMs - p.service.lastSettleAttemptMs >= SETTLE_RETRY_MS
    && exists d <- p.table.closes :: IsUnsettled(p.service.index.closes, UtcDayFromMs(nowMs), d)
  }

  lemma SafeCycle(p: Pair, c: Cycle)
    requires !CanRewrite(p, c.nowMs)
    ensures Kept(p.table.closes, Poll(p, c).table.closes)
  {
  }

  /** Another price for a lost day. */
  function Rewriting(p: Pair, nowMs: nat, d: int): Cycle
    requires d in p.table.closes
  {
    Cycle(nowMs, Some("1"), true, Some([ReferenceRow(d, Close, p.table.closes[d].usdPrice + "0", "coingecko")]), true)
  }

  lemma UnsafeCycle(p: Pair, nowMs: nat, d: int)
    requires nowMs - p.service.lastSettleAttemptMs >= SETTLE_RETRY_MS
    requires d in p.table.closes && IsUnsettled(p.service.index.closes, UtcDayFromMs(nowMs), d)
    ensures !Kept(p.table.closes, Poll(p, Rewriting(p, nowMs, d)).table.closes)
  {
    var c := Rewriting(p, nowMs, d);
    var row := c.history.value[0];
    assert row.usdPrice != p.table.closes[d].usdPrice by { assert |row.usdPrice| == |p.table.closes[d].usdPrice| + 1; }
    assert d in DaysOf(c.history.value) && LastFor(c.history.value, d) == Some(row);
    assert NeedsSettling(p.service.index.closes, UtcDayFromMs(nowMs));
    var rows := ToStore(p.service.index.closes, UtcDayFromMs(nowMs), c.history.value);
    assert d in rows && rows[d] == row;
  }

  /** Whatever the source offers, a cycle rewrites no stored close, exactly when it cannot store one again. */
  lemma CycleKeepsClosesExactly(p: Pair, nowMs: nat)
    ensures (forall c: Cycle | c.nowMs == nowMs :: Kept(p.table.closes, Poll(p, c).table.closes))
      <==> !CanRewrite(p, nowMs)
  {
    if CanRewrite(p, nowMs) {
      var d :| d in p.table.closes && IsUnsettled(p.service.index.closes, UtcDayFromMs(nowMs), d);
      UnsafeCycle(p, nowMs, d);
      assert Rewriting(p, nowMs, d).nowMs == nowMs;
    } else {
      hide CanRewrite, Kept, Poll;
      forall c: Cycle | c.nowMs == nowMs
        ensures Kept(p.table.closes, Poll(p, c).table.closes)
      {
        SafeCycle(p, c);
      }
    }
  }

  ghost predicate SafeStep(w: World, a: Action) {
    a.Tick? && w.service.Some? ==> !CanRewrite(Pair(w.table, w.service.value), a.cycle.nowMs)
  }

  /** No cycle of the run comes at a moment when a stored close could be stored again. */
  ghost predicate SafeRun(w: World, actions: seq<Action>) {
    forall i :: 0 <= i < |actions| ==> SafeStep(After(w, actions[..i]), actions[i])
  }

  lemma SafePrefix(w: World, actions: seq<Action>, n: nat)
    requires SafeRun(w, actions) && n <= |actions|
    ensures SafeRun(w, actions[..n])
    ensures n < |actions| ==> SafeStep(After(w, actions[..n]), actions[n])
  {
    hide SafeStep, After;
    assert forall i :: 0 <= i < n ==> actions[..n][..i] == actions[..i];
  }

  /** Every close that the index, or a reload under way, holds is in the table. */
  ghost predicate Known(w: World) {
    && (w.service.Some? ==> Kept(w.service.value.index.closes, w.table.closes))
    && (w.reading.Some? ==> Kept(w.reading.value.closes, w.table.closes))
  }

  lemma StepKeeps(w: World, a: Action)
    requires SafeStep(w, a)
    ensures Kept(w.table.closes, Next(w, a).table.closes)
    ensures Known(w) ==> Known(Next(w, a))
  {
    if a.Tick? && w.service.Some? {
      SafeCycle(Pair(w.table, w.service.value), a.cycle);
    }
  }

  /** Then a stored close is never rewritten and never lost, reloads that overlap a settle included. */
  lemma {:induction false} StoredClosesAreNeverRewritten(w: World, actions: seq<Action>, i: nat)
    requires SafeRun(w, actions) && i <= |actions|
    ensures Kept(After(w, actions[..i]).table.closes, After(w, actions).table.closes)
    decreases |actions|
  {
    if i == |actions| {
      assert actions[..i] == actions;
    } else {
      var n := |actions| - 1;
      SafePrefix(w, actions, n);
      StoredClosesAreNeverRewritten(w, actions[..n], i);
      assert actions[..n][..i] == actions[..i];
      hide Next, SafeStep, SafeRun, Known;
      StepKeeps(After(w, actions[..n]), actions[n]);
    }
  }

  ghost predicate Fresh(w: World) { w.service.None? && w.reading.None? }

  lemma {:induction false} RunStaysKnown(w: World, actions: seq<Action>)
    requires Fresh(w) && SafeRun(w, actions)
    ensures Known(After(w, actions))
  {
    if actions != [] {
      var n := |actions| - 1;
      SafePrefix(w, actions, n);
      RunStaysKnown(w, actions[..n]);
      hide Next, SafeStep, SafeRun, Known;
      StepKeeps(After(w, actions[..n]), actions[n]);
    }
  }

  // ---------------------------------------------------------------- the index against the table

  ghost predicate InStep(w: World) {
    w.service.Some? ==> w.service.value.index.closes == w.table.closes
  }

  /** A reload that is taken in has read every close stored by then. */
  ghost predicate WholeReload(w: World, a: Action) {
    a.EndReload? && w.service.Some? && w.reading.Some? ==> w.reading.value.closes == w.table.closes
  }

  ghost predicate StaysInStep(w: World, actions: seq<Action>) {
    forall n :: 0 <= n <= |actions| ==> InStep(After(w, actions[..n]))
  }

  ghost predicate WholeReloads(w: World, actions: seq<Action>) {
    forall i :: 0 <= i < |actions| ==> WholeReload(After(w, actions[..i]), actions[i])
  }

  lemma StepStaysInStepExactly(w: World, a: Action)
    requires InStep(w)
    ensures InStep(Next(w, a)) <==> WholeReload(w, a)
    ensures SafeStep(w, a)
  {
  }

  lemma AfterPrefix(w: World, actions: seq<Action>, i: nat)
    requires i < |actions|
    ensures After(w, actions[..i + 1]) == Next(After(w, actions[..i]), actions[i])
  {
    assert actions[..i + 1][..i] == actions[..i];
  }

  lemma {:induction false} WholeReloadsStay(w: World, actions: seq<Action>, n: nat)
    requires Fresh(w) && WholeReloads(w, actions) && n <= |actions|
    ensures InStep(After(w, actions[..n]))
  {
    if n > 0 {
      WholeReloadsStay(w, actions, n - 1);
      AfterPrefix(w, actions, n - 1);
      assert WholeReload(After(w, actions[..n - 1]), actions[n - 1]);
      hide After, Next, InStep, WholeReload;
      StepStaysInStepExactly(After(w, actions[..n - 1]), actions[n - 1]);
    }
  }

  /**
   The index holds exactly the stored closes throughout a run if and only if every reload it takes in is
   whole; and then no cycle can store a close again.
   */
  lemma IndexIsTableExactly(w: World, actions: seq<Action>)
    requires Fresh(w)
    ensures StaysInStep(w, actions) <==> WholeReloads(w, actions)
    ensures WholeReloads(w, actions) ==> SafeRun(w, actions)
  {
    hide After, Next, InStep, WholeReload, SafeStep;
    if WholeReloads(w, actions) {
      forall n | 0 <= n <= |actions| ensures InStep(After(w, actions[..n])) {
        WholeReloadsStay(w, actions, n);
      }
    }
    if StaysInStep(w, actions) {
      forall i | 0 <= i < |actions|
        ensures WholeReload(After(w, actions[..i]), actions[i]) && SafeStep(After(w, actions[..i]), actions[i])
      {
        AfterPrefix(w, actions, i);
        assert InStep(After(w, actions[..i])) && InStep(After(w, actions[..i + 1]));
        StepStaysInStepExactly(After(w, actions[..i]), actions[i]);
      }
    }
  }

  // ---------------------------------------------------------------- determinism

  /** Outside the live window, an answer is final exactly when the previous day's close is stored. */
  lemma AnchorIsFinalExactly(b: Book, blockMs: nat, nowMs: int, liveWindowMs: int, maxStaleDays: int,
                             x: Option<ReferenceLookup>)
    requires ValidBook(b) && maxStaleDays >= 1 && nowMs - blockMs > liveWindowMs
    requires IsAnchor(b, blockMs, nowMs, liveWindowMs, maxStaleDays, x)
    ensures UtcDayFromMs(blockMs) - 1 in b.closes
       <==> forall later: Book, now: int, y | Kept(b.closes, later.closes) && now >= nowMs
         && IsAnchor(later, blockMs, now, liveWindowMs, maxStaleDays, y) :: y == x
  {
    var before := UtcDayFromMs(blockMs) - 1;
    if before in b.closes {
      forall later: Book, now: int, y | Kept(b.closes, later.closes) && now >= nowMs
        && IsAnchor(later, blockMs, now, liveWindowMs, maxStaleDays, y)
        ensures y == x
      {
        PreviousCloseDecides(b, blockMs, nowMs, liveWindowMs, maxStaleDays, x);
        PreviousCloseDecides(later, blockMs, now, liveWindowMs, maxStaleDays, y);
      }
    } else {
      var row := ReferenceRow(before, Close, "1.000000000000", "coingecko");
      var later := b.(closes := b.closes[before := row]);
      var y := Some(ReferenceLookup(row.usdPrice, before, Close, row.source, 1));
      assert IsNewestBefore(later.closes, UtcDayFromMs(blockMs), before);
      assert IsAnchor(later, blockMs, nowMs, liveWindowMs, maxStaleDays, y);
      assert y != x;
    }
  }

  lemma PreviousCloseDecides(b: Book, blockMs: nat, nowMs: int, liveWindowMs: int, maxStaleDays: int,
                             x: Option<ReferenceLookup>)
    requires maxStaleDays >= 1 && nowMs - blockMs > liveWindowMs && UtcDayFromMs(blockMs) - 1 in b.closes
    requires IsAnchor(b, blockMs, nowMs, liveWindowMs, maxStaleDays, x)
    ensures var before := UtcDayFromMs(blockMs) - 1;
            x == Some(ReferenceLookup(b.closes[before].usdPrice, before, Close, b.closes[before].source, 1))
  {
    assert IsNewestBefore(b.closes, UtcDayFromMs(blockMs), UtcDayFromMs(blockMs) - 1);
  }

  lemma OtherClosesDiffer(b: Book, blockMs: nat, nowMs: int, liveWindowMs: int, maxStaleDays: int,
                          y: Option<ReferenceLookup>)
    requires nowMs - blockMs > liveWindowMs && IsAnchor(b, blockMs, nowMs, liveWindowMs, maxStaleDays, y)
    requires UtcDayFromMs(blockMs) - 1 !in b.closes
    ensures y.None? || y.value.staleDays != 1
  {
  }

  /**
   While no stored close can be stored again, a block outside the live window whose previous day's close
   the index holds is answered from that close. At any later point of the run, restarts and reloads
   included, the answer is the same if and only if the index still holds a close for that day.
   */
  lemma AnswersAreReplayable(w: World, actions: seq<Action>, i: nat, blockMs: nat, now: int, later: int, window: int,
                             x: Option<ReferenceLookup>, y: Option<ReferenceLookup>)
    requires Fresh(w) && SafeRun(w, actions) && i <= |actions|
    requires After(w, actions[..i]).service.Some? && After(w, actions).service.Some?
    requires UtcDayFromMs(blockMs) - 1 in After(w, actions[..i]).service.value.index.closes
    requires now - blockMs > window && later >= now
    requires IsAnchor(After(w, actions[..i]).service.value.index, blockMs, now, window, MAX_SETTLED_STALENESS_DAYS, x)
    requires IsAnchor(After(w, actions).service.value.index, blockMs, later, window, MAX_SETTLED_STALENESS_DAYS, y)
    ensures x.Some?
    ensures x == y <==> UtcDayFromMs(blockMs) - 1 in After(w, actions).service.value.index.closes
  {
    hide After, SafeRun, IsAnchor;
    SafePrefix(w, actions, i);
    RunStaysKnown(w, actions[..i]);
    RunStaysKnown(w, actions);
    StoredClosesAreNeverRewritten(w, actions, i);
    var before, after := After(w, actions[..i]).service.value.index, After(w, actions).service.value.index;
    PreviousCloseDecides(before, blockMs, now, window, MAX_SETTLED_STALENESS_DAYS, x);
    if UtcDayFromMs(blockMs) - 1 in after.closes {
      PreviousCloseDecides(after, blockMs, later, window, MAX_SETTLED_STALENESS_DAYS, y);
    } else {
      OtherClosesDiffer(after, blockMs, later, window, MAX_SETTLED_STALENESS_DAYS, y);
    }
  }

  /** With whole reloads, once the previous day's close is stored the answer never changes. */
  lemma WholeReloadsAnswerAlike(w: World, actions: seq<Action>, i: nat, blockMs: nat, now: int, later: int, window: int,
                                x: Option<ReferenceLookup>, y: Option<ReferenceLookup>)
    requires Fresh(w) && WholeReloads(w, actions) && i <= |actions|
    requires After(w, actions[..i]).service.Some? && After(w, actions).service.Some?
    requires UtcDayFromMs(blockMs) - 1 in After(w, actions[..i]).table.closes
    requires now - blockMs > window && later >= now
    requires IsAnchor(After(w, actions[..i]).service.value.index, blockMs, now, window, MAX_SETTLED_STALENESS_DAYS, x)
    requires IsAnchor(After(w, actions).service.value.index, blockMs, later, window, MAX_SETTLED_STALENESS_DAYS, y)
    ensures x.Some? && x == y
  {
    hide After, SafeRun, IsAnchor;
    IndexIsTableExactly(w, actions);
    assert InStep(After(w, actions[..i]));
    assert actions[..|actions|] == actions && InStep(After(w, actions[..|actions|]));
    StoredClosesAreNeverRewritten(w, actions, i);
    AnswersAreReplayable(w, actions, i, blockMs, now, later, window, x, y);
  }

  // ---------------------------------------------------------------- a reload that overlaps a settle

  function CloseOf(day: int, price: string): ReferenceRow { ReferenceRow(day, Close, price, "coingecko") }

  function Offering(nowMs: nat, row: ReferenceRow): Cycle { Cycle(nowMs, Some("3"), true, Some([row]), true) }

  const DAY_AFTER := 20001 * MS_PER_DAY

  /** Day 20000 is stored between a reload's query and its assignment, then offered again with another price. */
  const OVERLAP: seq<Action> := [Start, BeginReload, Tick(Offering(DAY_AFTER, CloseOf(20000, "3"))), EndReload,
                                 Tick(Offering(DAY_AFTER + SETTLE_RETRY_MS, CloseOf(20000, "4")))]

  const NOTHING_STORED := World(EMPTY_BOOK, None, None)

  /** The index forgets the close, and the next settle stores the day anew. */
  lemma OverlappingReloadRewrites()
    ensures Fresh(NOTHING_STORED)
    ensures After(NOTHING_STORED, OVERLAP[..4]).table.closes == map[20000 := CloseOf(20000, "3")]
    ensures After(NOTHING_STORED, OVERLAP).table.closes == map[20000 := CloseOf(20000, "4")]
  {
    AfterSteps(NOTHING_STORED);
    OneDaySettled(map[], Offering(DAY_AFTER, CloseOf(20000, "3")), CloseOf(20000, "3"));
    OneDaySettled(map[], Offering(DAY_AFTER + SETTLE_RETRY_MS, CloseOf(20000, "4")), CloseOf(20000, "4"));
    hide After;
  }

  lemma AfterSteps(w: World)
    ensures var s1 := Next(Next(w, OVERLAP[0]), OVERLAP[1]);
            var s2 := Next(Next(s1, OVERLAP[2]), OVERLAP[3]);
            After(w, OVERLAP[..4]) == s2 && After(w, OVERLAP) == Next(s2, OVERLAP[4])
  {
    hide Next;
    assert OVERLAP[..0] == [] && OVERLAP[..5] == OVERLAP;
    AfterPrefix(w, OVERLAP, 0);
    AfterPrefix(w, OVERLAP, 1);
    AfterPrefix(w, OVERLAP, 2);
    AfterPrefix(w, OVERLAP, 3);
    AfterPrefix(w, OVERLAP, 4);
  }

  lemma OneDaySettled(closes: map<int, ReferenceRow>, c: Cycle, row: ReferenceRow)
    requires c.history == Some([row]) && row.day == UtcDayFromMs(c.nowMs) - 1 && row.day !in closes
    ensures NeedsSettling(closes, UtcDayFromMs(c.nowMs))
      && ToStore(closes, UtcDayFromMs(c.nowMs), [row]) == map[row.day := row]
  {
    var today := UtcDayFromMs(c.nowMs);
    assert IsUnsettled(closes, today, row.day);
    assert DaysOf([row]) == {row.day};
  }
}
