/** The month partitions of block space, a block standing for twelve seconds of synthetic time from 1970 on. */
module Calendar {
  // Dates follow section 21.4.1 of ECMA-262.
  import opened Options
  import opened Decimals

  // ---------------------------------------------------------------- ECMA-262, section 21.4.1

  /** The number of the first day of a year, day 0 being 1 January 1970. */
  function DayFromYear(y: int): int {
    365 * (y - 1970) + (y - 1969) / 4 - (y - 1901) / 100 + (y - 1601) / 400
  }

  predicate IsLeap(y: int) { y % 4 == 0 && (y % 100 != 0 || y % 400 == 0) }

  function DaysInYear(y: int): int { if IsLeap(y) then 366 else 365 }

  /** The day within the year on which a month begins; month 13 begins the next year. */
  function DaysBefore(m: int, leap: bool): int
    requires 1 <= m <= 13
  {
    [0, 31, 59, 90, 120, 151, 181, 212, 243, 273, 304, 334, 365][m - 1] + (if leap && m > 2 then 1 else 0)
  }

  /** Thirty days hath September, April, June and November. */
  lemma MonthLengths(m: int, leap: bool)
    requires 1 <= m <= 12
    ensures DaysBefore(1, leap) == 0
    ensures DaysBefore(m + 1, leap) - DaysBefore(m, leap)
         == if m == 2 then (if leap then 29 else 28) else if m in {4, 6, 9, 11} then 30 else 31
  {
  }

  /** The year a day falls in: the last that begins on or before it. */
  function YearFrom(day: int, y: int): int
    requires DayFromYear(y) <= day
    decreases day - DayFromYear(y)
  {
    YearsAdvance(y);
    if DayFromYear(y + 1) <= day then YearFrom(day, y + 1) else y
  }

  function YearFromDay(day: nat): int { YearFrom(day, 1970) }

  function MonthFrom(dayWithinYear: int, leap: bool, m: int): int
    requires 1 <= m <= 12
    decreases 12 - m
  {
    if m == 12 || dayWithinYear < DaysBefore(m + 1, leap) then m else MonthFrom(dayWithinYear, leap, m + 1)
  }

  function MonthFromDay(day: nat): int {
    var y := YearFromDay(day);
    MonthFrom(day - DayFromYear(y), IsLeap(y), 1)
  }

  /** Years 0 to 99 are taken for the twentieth century's. */
  function MakeFullYear(y: int): int { if 0 <= y <= 99 then 1900 + y else y }

  /** `Date.UTC(year, month - 1, 1)`. */
  function UtcMs(year: int, month: int): int
    requires 1 <= month <= 12
  {
    var y := MakeFullYear(year);
    (DayFromYear(y) + DaysBefore(month, IsLeap(y))) * 86400000
  }

  lemma YearsAdvance(y: int)
    ensures DayFromYear(y + 1) == DayFromYear(y) + DaysInYear(y)
  {
    Steps(y - 1969, 4);
    Steps(y - 1901, 100);
    Steps(y - 1601, 400);
    assert y % 4 == 0 <==> (y - 1968) % 4 == 0;
    assert y % 100 == 0 <==> (y - 1900) % 100 == 0;
    assert y % 400 == 0 <==> (y - 1600) % 400 == 0;
  }

  /** A quotient grows by one exactly at the multiples of its divisor. */
  lemma Steps(x: int, d: int)
    requires d == 4 || d == 100 || d == 400
    ensures (x + 1) / d == x / d + (if (x + 1) % d == 0 then 1 else 0)
  {
  }

  // ---------------------------------------------------------------- partitions

  datatype BlockRange = BlockRange(fromBlock: int, toBlock: int)

  /** `Number(text)` of digits; the empty text is zero. */
  function NumberOf(text: string): Option<nat> { if AllDigits(text) then Some(ValueOf(text)) else None }

  function Slice(s: string, lo: nat, hi: nat): string
    requires lo <= hi
  {
    s[Min(lo, |s|)..Min(hi, |s|)]
  }

  const MS_PER_BLOCK := 12000

  function MonthRange(year: int, month: int): BlockRange
    requires 1 <= month <= 12
  {
    BlockRange(UtcMs(year, month) / MS_PER_BLOCK,
               UtcMs(if month == 12 then year + 1 else year, if month == 12 then 1 else month + 1) / MS_PER_BLOCK)
  }

  /** Absent for a text that is no month of the calendar. */
  function PartitionBlockRange(partition: string): Option<BlockRange> {
    var year, month := NumberOf(Slice(partition, 0, 4)), NumberOf(Slice(partition, 4, 6));
    if year.None? || month.None? || month.value < 1 || month.value > 12 then None
    else Some(MonthRange(year.value, month.value))
  }

  /** The UTC day of a block. */
  function DayOfBlock(block: nat): nat { block * 12 / 86400 }

  /** The partition key, `toYYYYMM(toDateTime(block_height * 12))`. */
  function PartitionOf(block: nat): int { YearFromDay(DayOfBlock(block)) * 100 + MonthFromDay(DayOfBlock(block)) }

  // ---------------------------------------------------------------- the calendar inverted

  lemma {:induction false} YearFromIs(day: int, from: int, y: int)
    requires DayFromYear(from) <= day && from <= y && DayFromYear(y) <= day < DayFromYear(y + 1)
    ensures YearFrom(day, from) == y
    decreases y - from
  {
    hide DayFromYear;
    YearsGrow(from + 1, y + 1);
    if from < y {
      YearsGrow(from + 1, y);
      YearFromIs(day, from + 1, y);
    }
  }

  lemma {:induction false} YearsGrow(a: int, b: int)
    requires a <= b
    ensures DayFromYear(a) <= DayFromYear(b)
    decreases b - a
  {
    if a < b {
      YearsAdvance(a);
      YearsGrow(a + 1, b);
    }
  }

  lemma {:induction false} YearFromBounds(day: int, from: int)
    requires DayFromYear(from) <= day
    ensures var y := YearFrom(day, from); from <= y && DayFromYear(y) <= day < DayFromYear(y + 1)
    decreases day - DayFromYear(from)
  {
    YearsAdvance(from);
    if DayFromYear(from + 1) <= day { YearFromBounds(day, from + 1); }
  }

  lemma {:induction false} MonthFromIs(d: int, leap: bool, from: int, m: int)
    requires 1 <= from <= 12 && 1 <= m <= 12 && DaysBefore(from, leap) <= d < DaysBefore(13, leap)
    ensures MonthFrom(d, leap, from) == m <==> from <= m && DaysBefore(m, leap) <= d < DaysBefore(m + 1, leap)
    decreases 12 - from
  {
    MonthsGrow(leap);
    if from < 12 && DaysBefore(from + 1, leap) <= d {
      MonthFromIs(d, leap, from + 1, m);
    }
  }

  lemma MonthsGrow(leap: bool)
    ensures forall a, b :: 1 <= a < b <= 13 ==> DaysBefore(a, leap) < DaysBefore(b, leap)
  {
  }

  /** A day is in a month exactly when it is between the month's first day and the next month's. */
  lemma DayIsInMonth(day: nat, y: int, m: int)
    requires y >= 1970 && 1 <= m <= 12
    ensures YearFromDay(day) == y && MonthFromDay(day) == m
       <==> DayFromYear(y) + DaysBefore(m, IsLeap(y)) <= day < DayFromYear(y) + DaysBefore(m + 1, IsLeap(y))
  {
    var leap, own := IsLeap(y), YearFromDay(day);
    YearFromBounds(day, 1970);
    YearsAdvance(y);
    MonthsWithin(leap, m);
    assert DaysInYear(y) == DaysBefore(13, leap);
    hide DayFromYear, IsLeap, DaysInYear, YearFrom, MonthFrom, DaysBefore;
    if own == y {
      DaysBeforeJanuary(leap);
      MonthFromIs(day - DayFromYear(y), leap, 1, m);
    } else if DayFromYear(y) <= day < DayFromYear(y + 1) {
      YearFromIs(day, 1970, y);
    }
  }

  lemma MonthsWithin(leap: bool, m: int)
    requires 1 <= m <= 12
    ensures 0 <= DaysBefore(m, leap) && DaysBefore(m + 1, leap) <= DaysBefore(13, leap)
  {
  }

  lemma DaysBeforeJanuary(leap: bool)
    ensures DaysBefore(1, leap) == 0
  {
  }

  /** A month's bounds are whole days, 7200 blocks each. */
  lemma MonthBounds(y: int, m: int)
    requires y >= 1970 && 1 <= m <= 12
    ensures MonthRange(y, m).fromBlock == (DayFromYear(y) + DaysBefore(m, IsLeap(y))) * 7200
    ensures MonthRange(y, m).toBlock == (DayFromYear(y) + DaysBefore(m + 1, IsLeap(y))) * 7200
  {
    YearsAdvance(y);
  }

  /** A block is in a month's range exactly when its partition key is that month's. */
  lemma RangeIsPartition(block: nat, y: int, m: int)
    requires y >= 1970 && 1 <= m <= 12
    ensures MonthRange(y, m).fromBlock <= block < MonthRange(y, m).toBlock <==> PartitionOf(block) == y * 100 + m
  {
    hide DayFromYear, IsLeap, DaysBefore, MonthRange, YearFromDay, MonthFromDay;
    MonthBounds(y, m);
    DayIsInMonth(DayOfBlock(block), y, m);
    MonthNumber(DayOfBlock(block));
  }

  lemma MonthNumber(day: nat)
    ensures 1 <= MonthFromDay(day) <= 12
  {
    MonthFromRange(day - DayFromYear(YearFromDay(day)), IsLeap(YearFromDay(day)), 1);
  }

  lemma {:induction false} MonthFromRange(d: int, leap: bool, m: int)
    requires 1 <= m <= 12
    ensures 1 <= MonthFrom(d, leap, m) <= 12
    decreases 12 - m
  {
    if m < 12 { MonthFromRange(d, leap, m + 1); }
  }

  /** Consecutive months abut, and the first begins at block 0. */
  lemma MonthsAbut(y: int, m: int)
    requires y >= 1970 && 1 <= m <= 12
    ensures MonthRange(y, m).toBlock == if m == 12 then MonthRange(y + 1, 1).fromBlock
      else MonthRange(y, m + 1).fromBlock
    ensures MonthRange(y, m).fromBlock < MonthRange(y, m).toBlock
    ensures MonthRange(1970, 1).fromBlock == 0
  {
    MonthBounds(y, m);
    MonthsGrow(IsLeap(y));
  }

  /** Every block is in the range of its own partition, and in no other month's. */
  lemma MonthsTile(block: nat, y: int, m: int)
    requires y >= 1970 && 1 <= m <= 12
    ensures var own := MonthRange(YearFromDay(DayOfBlock(block)), MonthFromDay(DayOfBlock(block)));
            own.fromBlock <= block < own.toBlock
    ensures MonthRange(y, m).fromBlock <= block < MonthRange(y, m).toBlock
            ==> y == YearFromDay(DayOfBlock(block)) && m == MonthFromDay(DayOfBlock(block))
  {
    var day := DayOfBlock(block);
    YearFromBounds(day, 1970);
    MonthNumber(day);
    hide YearFromDay, MonthFromDay, MonthRange;
    RangeIsPartition(block, YearFromDay(day), MonthFromDay(day));
    RangeIsPartition(block, y, m);
  }

  // ---------------------------------------------------------------- partition texts

  lemma DigitsOf(y: nat, m: nat)
    requires 1000 <= y <= 9999 && m <= 99
    ensures |Digits(y)| == 4 && Digits(y * 100 + m) == Digits(y) + [CharOf(m / 10), CharOf(m % 10)]
  {
    assert (y * 100 + m) / 10 == y * 10 + m / 10 && (y * 100 + m) % 10 == m % 10;
    assert (y * 10 + m / 10) / 10 == y && (y * 10 + m / 10) % 10 == m / 10;
    assert Digits(y / 1000) == [CharOf(y / 1000)];
    assert (y / 10) / 10 == y / 100 && (y / 100) / 10 == y / 1000;
    assert |Digits(y / 100)| == 2;
    assert |Digits(y / 10)| == 3;
  }

  lemma TwoDigits(m: nat)
    requires m <= 99
    ensures var tail := [CharOf(m / 10), CharOf(m % 10)]; AllDigits(tail) && ValueOf(tail) == m
  {
    var tail := [CharOf(m / 10), CharOf(m % 10)];
    assert tail[..1] == [CharOf(m / 10)];
    assert [CharOf(m / 10)][..0] == "";
    assert ValueOf([CharOf(m / 10)]) == m / 10;
  }

  lemma SlicesOf(year: string, month: string)
    requires |year| == 4 && |month| == 2
    ensures Slice(year + month, 0, 4) == year && Slice(year + month, 4, 6) == month
  {
  }

  /** For the partition key written out: a block is in the range exactly when that is its own partition. */
  lemma PartitionBlockRangeInverts(block: nat, y: nat, m: nat)
    requires 1970 <= y <= 9999 && 1 <= m <= 12
    ensures var r := PartitionBlockRange(Digits(y * 100 + m));
            r.Some? && (r.value.fromBlock <= block < r.value.toBlock <==> PartitionOf(block) == y * 100 + m)
  {
    hide MonthRange, PartitionOf, Digits, ValueOf;
    DigitsOf(y, m);
    DigitsDenote(y);
    TwoDigits(m);
    SlicesOf(Digits(y), [CharOf(m / 10), CharOf(m % 10)]);
    hide Slice;
    RangeIsPartition(block, y, m);
  }

  /** Only the first six characters of a partition text are read. */
  lemma SixCharactersAreRead(s: string, t: string)
    requires |s| == 6
    ensures PartitionBlockRange(s + t) == PartitionBlockRange(s)
  {
    hide NumberOf, MonthRange;
    assert Slice(s + t, 0, 4) == Slice(s, 0, 4) && Slice(s + t, 4, 6) == Slice(s, 4, 6);
  }

  /**
   The calendar takes the years 0 to 99 for 1900 to 1999, so their months have the blocks of those years,
   except December of 99: it ends with the year 100, which is taken as it stands.
   */
  lemma TwoDigitYears(y: int, m: int)
    requires 0 <= y <= 99 && 1 <= m <= 12
    ensures MonthRange(y, m) == MonthRange(1900 + y, m) <==> !(y == 99 && m == 12)
    ensures y == 99 && m == 12 ==> MonthRange(y, m).toBlock < 0 < MonthRange(y, m).fromBlock
  {
  }

  /** The bound the staleness query uses for a partition's first block is the same. */
  lemma StalenessBoundAgrees(y: int, m: int)
    requires y >= 1970 && 1 <= m <= 12
    ensures (UtcMs(y, m) / 1000) / 12 == MonthRange(y, m).fromBlock
  {
  }
}
