/** The KSM/USD reference index. */
module Reference {
  // The rule that picks a block's anchor is `IsAnchor`.
  import opened Options

  datatype Grain = Close | Live

  /** Days are numbered from 1 January 1970. */
  datatype ReferenceRow = ReferenceRow(day: int, grain: Grain, usdPrice: string, source: string)

  datatype ReferenceLookup = ReferenceLookup(usdPrice: string, day: int, grain: Grain, source: string, staleDays: int)

  const MS_PER_DAY := 86400000
  const MAX_SETTLED_STALENESS_DAYS := 7

  /** The UTC day of a time after 1970. */
  function UtcDayFromMs(ms: nat): int { ms / MS_PER_DAY }

  /** A day has 86400 seconds, and day 0 begins at time zero. */
  lemma DayOfTime(ms: nat)
    ensures 86400 * 1000 * UtcDayFromMs(ms) <= ms < 86400 * 1000 * (UtcDayFromMs(ms) + 1)
  {
  }

  /** What the table holds, and what the index holds: at most a close and a live row a day. */
  datatype Book = Book(closes: map<int, ReferenceRow>, lives: map<int, ReferenceRow>)

  const EMPTY_BOOK := Book(map[], map[])

  function Put(b: Book, row: ReferenceRow): Book {
    if row.grain == Live then b.(lives := b.lives[row.day := row]) else b.(closes := b.closes[row.day := row])
  }

  function PutAll(b: Book, rows: seq<ReferenceRow>): Book {
    if rows == [] then b else Put(PutAll(b, rows[..|rows|-1]), rows[|rows|-1])
  }

  ghost predicate ValidBook(b: Book) {
    && (forall d <- b.closes :: b.closes[d].day == d && b.closes[d].grain == Close)
    && (forall d <- b.lives :: b.lives[d].day == d && b.lives[d].grain == Live)
  }

  lemma {:induction false} PutAllKeepsValid(b: Book, rows: seq<ReferenceRow>)
    requires ValidBook(b)
    ensures ValidBook(PutAll(b, rows))
  {
    if rows != [] { PutAllKeepsValid(b, rows[..|rows|-1]); }
  }

  // ---------------------------------------------------------------- the rule, stated plainly

  /** The newest close strictly before a day. */
  ghost predicate IsNewestBefore(closes: map<int, ReferenceRow>, day: int, d: int) {
    d in closes && d < day && forall e <- closes :: e < day ==> e <= d
  }

  /**
   The anchor of a block: its own day's live row inside the window, else the newest earlier close if it is
   not too old.
   */
  ghost predicate IsAnchor(b: Book, blockMs: nat, nowMs: int, liveWindowMs: int, maxStaleDays: int,
                           anchor: Option<ReferenceLookup>) {
    var day := UtcDayFromMs(blockMs);
    if nowMs - blockMs <= liveWindowMs && day in b.lives then
      anchor == Some(ReferenceLookup(b.lives[day].usdPrice, day, Live, b.lives[day].source, 0))
    else if anchor.Some? then
      exists d :: IsNewestBefore(b.closes, day, d) && day - d <= maxStaleDays
                  && anchor.value == ReferenceLookup(b.closes[d].usdPrice, d, Close, b.closes[d].source, day - d)
    else
      forall d <- b.closes :: d < day ==> day - d > maxStaleDays
  }

  /** The rule leaves no choice. */
  lemma AnchorIsUnique(b: Book, blockMs: nat, nowMs: int, liveWindowMs: int, maxStaleDays: int,
                       x: Option<ReferenceLookup>, y: Option<ReferenceLookup>)
    requires IsAnchor(b, blockMs, nowMs, liveWindowMs, maxStaleDays, x)
      && IsAnchor(b, blockMs, nowMs, liveWindowMs, maxStaleDays, y)
    ensures x == y
  {
  }

  /**
   The window ends with its last millisecond: up to it the day's own live row answers, after it the newest
   close of an earlier day, unless that is more than `maxStaleDays` days old.
   */
  lemma WindowInMilliseconds(b: Book, blockMs: nat, nowMs: int, liveWindowMs: int, maxStaleDays: int,
                             x: ReferenceLookup)
    requires ValidBook(b)
    requires IsAnchor(b, blockMs, nowMs, liveWindowMs, maxStaleDays, Some(x))
    ensures nowMs < blockMs + liveWindowMs + 1 && blockMs / 86400000 in b.lives
            <==> x.grain.Live? && x.day == blockMs / 86400000 && x.usdPrice == b.lives[x.day].usdPrice
                 && x.staleDays == 0
    ensures nowMs >= blockMs + liveWindowMs + 1 ==> x.grain.Close? && x.day < blockMs / 86400000 <= x.day + maxStaleDays
  {
  }

  // ---------------------------------------------------------------- the index

  ghost predicate Increasing(days: seq<int>) { forall i, j :: 0 <= i < j < |days| ==> days[i] < days[j] }

  /** `splice(at, 0, day)`. */
  function Splice(days: seq<int>, at: nat, day: int): seq<int>
    requires at <= |days|
  {
    days[..at] + [day] + days[at..]
  }

  lemma SpliceKeepsOrder(days: seq<int>, at: nat, day: int)
    requires Increasing(days) && at <= |days|
    requires forall i :: 0 <= i < at ==> days[i] < day
    requires forall i :: at <= i < |days| ==> days[i] > day
    ensures Increasing(Splice(days, at, day))
    ensures forall d :: d in Splice(days, at, day) <==> d in days || d == day
  {
    assert days == days[..at] + days[at..];
  }

  class KsmReferenceIndex {
    var closeDays: seq<int>
    var closes: map<int, ReferenceRow>
    var lives: map<int, ReferenceRow>

    /** `closeDays` is the sorted key set of `closes`. */
    ghost predicate Valid()
      reads this
    {
      && Increasing(closeDays)
      && (forall d :: d in closeDays <==> d in closes)
      && ValidBook(Contents())
    }

    ghost function Contents(): Book
      reads this
    {
      Book(closes, lives)
    }

    constructor (rows: seq<ReferenceRow>)
      ensures Valid() && Contents() == PutAll(EMPTY_BOOK, rows)
    {
      closeDays, closes, lives := [], map[], map[];
      new;
      for i := 0 to |rows|
        invariant Valid() && Contents() == PutAll(EMPTY_BOOK, rows[..i])
      {
        assert rows[..i+1][..i] == rows[..i];
        PutRow(rows[i]);
      }
      assert rows[..|rows|] == rows;
    }

    method PutRow(row: ReferenceRow)
      requires Valid()
      modifies this
      ensures Valid() && Contents() == Put(old(Contents()), row)
    {
      hide Splice, Increasing;
      if row.grain == Live {
        lives := lives[row.day := row];
        return;
      }
      if row.day !in closes {
        var at := LowerBound(row.day);
        assert forall i :: 0 <= i < |closeDays| ==> closeDays[i] in closeDays;
        SpliceKeepsOrder(closeDays, at, row.day);
        closeDays := Splice(closeDays, at, row.day);
      }
      closes := closes[row.day := row];
    }

    /** How many settled days are before `day`. */
    method LowerBound(day: int) returns (at: nat)
      requires Valid()
      ensures at <= |closeDays|
      ensures forall i :: 0 <= i < at ==> closeDays[i] < day
      ensures forall i :: at <= i < |closeDays| ==> closeDays[i] >= day
    {
      var low, high := 0, |closeDays|;
      while low < high
        invariant 0 <= low <= high <= |closeDays|
        invariant forall i :: 0 <= i < low ==> closeDays[i] < day
        invariant forall i :: high <= i < |closeDays| ==> closeDays[i] >= day
      {
        var mid := (low + high) / 2;
        if closeDays[mid] < day { low := mid + 1; } else { high := mid; }
      }
      at := low;
    }

    method LatestSettledBefore(day: int) returns (row: Option<ReferenceRow>)
      requires Valid()
      ensures row.None? <==> forall d <- closes :: d >= day
      ensures row.Some? ==> IsNewestBefore(closes, day, row.value.day) && row.value == closes[row.value.day]
    {
      var at := LowerBound(day);
      assert forall d <- closes :: exists i :: 0 <= i < |closeDays| && closeDays[i] == d;
      if at == 0 { return None; }
      assert closeDays[at - 1] in closeDays;
      row := Some(closes[closeDays[at - 1]]);
    }

    /** The binary search gives the anchor the plain rule gives, and that rule admits no other. */
    method Lookup(blockMs: nat, nowMs: int, liveWindowMs: int, maxStaleDays: int)
      returns (anchor: Option<ReferenceLookup>)
      requires Valid()
      ensures forall x: Option<ReferenceLookup> ::
        IsAnchor(Contents(), blockMs, nowMs, liveWindowMs, maxStaleDays, x) <==> x == anchor
    {
      anchor := Anchor(blockMs, nowMs, liveWindowMs, maxStaleDays);
      forall x | IsAnchor(Contents(), blockMs, nowMs, liveWindowMs, maxStaleDays, x)
        ensures x == anchor
      {
        AnchorIsUnique(Contents(), blockMs, nowMs, liveWindowMs, maxStaleDays, x, anchor);
      }
    }

    method Anchor(blockMs: nat, nowMs: int, liveWindowMs: int, maxStaleDays: int)
      returns (anchor: Option<ReferenceLookup>)
      requires Valid()
      ensures IsAnchor(Contents(), blockMs, nowMs, liveWindowMs, maxStaleDays, anchor)
    {
      var blockDay := UtcDayFromMs(blockMs);
      if nowMs - blockMs <= liveWindowMs && blockDay in lives {
        var live := lives[blockDay];
        return Some(ReferenceLookup(live.usdPrice, live.day, live.grain, live.source, 0));
      }
      var settled := LatestSettledBefore(blockDay);
      if settled.None? { return None; }
      var staleDays := blockDay - settled.value.day;
      if staleDays > maxStaleDays { return None; }
      return Some(ReferenceLookup(settled.value.usdPrice, settled.value.day, settled.value.grain, settled.value.source,
                                  staleDays));
    }
  }
}
