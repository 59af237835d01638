/** The Gregorian calendar as ECMAScript computes it, over days since 1970-01-01 and months counted
    as 12 * year + month. */
module Calendars {
  /** The first day of a year. */
  function DayFromYear(y: int): int {
    365 * (y - 1970) + (y - 1969) / 4 - (y - 1901) / 100 + (y - 1601) / 400
  }

  predicate IsLeap(y: int) {
    y % 4 == 0 && (y % 100 != 0 || y % 400 == 0)
  }

  /** Days of a year before its month `m`, 0 for January. */
  function DaysBefore(m: int, leap: bool): int
    requires 0 <= m < 12
  {
    [0, 31, 59, 90, 120, 151, 181, 212, 243, 273, 304, 334][m] + if leap && m >= 2 then 1 else 0
  }

  /** The first day of month `k`. */
  function MonthStart(k: int): int {
    DayFromYear(k / 12) + DaysBefore(k % 12, IsLeap(k / 12))
  }

  function DaysIn(k: int): int {
    MonthStart(k + 1) - MonthStart(k)
  }

  lemma YearLength(y: int)
    ensures DayFromYear(y + 1) - DayFromYear(y) == if IsLeap(y) then 366 else 365
  {
    FourthYears(y);
    Centuries(y);
    FourthCenturies(y);
  }

  lemma FourthYears(y: int)
    ensures (y - 1968) / 4 - (y - 1969) / 4 == if y % 4 == 0 then 1 else 0
    ensures y % 100 == 0 ==> y % 4 == 0
  {
  }

  lemma Centuries(y: int)
    ensures (y - 1900) / 100 - (y - 1901) / 100 == if y % 100 == 0 then 1 else 0
    ensures y % 400 == 0 ==> y % 100 == 0
  {
  }

  lemma FourthCenturies(y: int)
    ensures (y - 1600) / 400 - (y - 1601) / 400 == if y % 400 == 0 then 1 else 0
  {
  }

  lemma NextMonth(k: int)
    ensures k % 12 == 11 ==> (k + 1) / 12 == k / 12 + 1 && (k + 1) % 12 == 0
    ensures k % 12 < 11 ==> (k + 1) / 12 == k / 12 && (k + 1) % 12 == k % 12 + 1
  {
  }

  /** The month lengths within a year. */
  lemma MonthInYear(m: int, leap: bool)
    requires 0 <= m < 12
    ensures (if m == 11 then if leap then 366 else 365 else DaysBefore(m + 1, leap)) - DaysBefore(m, leap)
         == if m == 1 then if leap then 29 else 28 else if m in {3, 5, 8, 10} then 30 else 31
  {
  }

  /** Month lengths are the usual ones, February 29 days in years divisible by 4 but not by 100, or by 400. */
  lemma MonthLength(k: int)
    ensures var y := k / 12;
            DaysIn(k) == (if k % 12 == 1 then if (y % 4 == 0 && y % 100 != 0) || y % 400 == 0 then 29 else 28
                          else if k % 12 in {3, 5, 8, 10} then 30 else 31)
  {
    var y := k / 12;
    NextMonth(k);
    MonthInYear(k % 12, IsLeap(y));
    YearLength(y);
    FourthYears(y);
    Centuries(y);
    assert IsLeap(y) <==> (y % 4 == 0 && y % 100 != 0) || y % 400 == 0;
  }

  /** Period `j` of the scale `start` is as long as some month. */
  ghost predicate MonthLong(start: int -> int, j: int) {
    28 <= start(j + 1) - start(j) <= 31
  }

  /** A scale of month-long periods, such as the months. */
  ghost predicate IsScale(start: int -> int) {
    forall j :: MonthLong(start, j)
  }

  /** Day 0 is the first of January 1970. */
  lemma EpochStart()
    ensures MonthStart(12 * 1970) == 0 && EPOCH_MONTH == 12 * 1970
  {
  }

  lemma MonthsAreScale()
    ensures IsScale(MonthStart)
    ensures MonthStart(EPOCH_MONTH) == 0
  {
    EpochStart();
    forall j
      ensures MonthLong(MonthStart, j)
    {
      MonthLength(j);
    }
  }

  /** `n` periods span between 28n and 31n days. */
  lemma {:induction false} Span(start: int -> int, k: int, n: nat)
    requires IsScale(start)
    ensures 28 * n <= start(k + n) - start(k) <= 31 * n
  {
    if n > 0 {
      Span(start, k, n - 1);
      assert MonthLong(start, k + n - 1);
    }
  }

  /** The period from `base` on that a day lies in. */
  function Locate(start: int -> int, base: int, day: nat): (k: int)
    requires IsScale(start) && start(base) == 0
    ensures k >= base && start(k) <= day < start(k + 1)
  {
    if day == 0 then
      assert MonthLong(start, base);
      base
    else
      var before := Locate(start, base, day - 1);
      assert MonthLong(start, before + 1);
      if day < start(before + 1) then before else before + 1
  }

  /** A day lies in one period only. */
  lemma PeriodUnique(start: int -> int, day: int, k: int, m: int)
    requires IsScale(start) && start(k) <= day < start(k + 1) && start(m) <= day < start(m + 1)
    ensures k == m
  {
    if m < k {
      Span(start, m + 1, k - m - 1);
    } else if m > k {
      Span(start, k + 1, m - k - 1);
    }
  }

  /** Later days lie in the same or a later period. */
  lemma PeriodMonotone(start: int -> int, a: int, b: int, k: int, m: int)
    requires IsScale(start) && start(k) <= a < start(k + 1) && start(m) <= b < start(m + 1) && a <= b
    ensures k <= m
  {
    if m < k {
      Span(start, m + 1, k - m - 1);
    }
  }

  const EPOCH_MONTH: int := 12 * 1970

  /** The month that a day since 1970 lies in. */
  function MonthOf(day: nat): int {
    MonthsAreScale();
    Locate(MonthStart, EPOCH_MONTH, day)
  }

  lemma AppliedStart(start: int -> int, k: int, first: int, next: int, day: int)
    requires start(k) == first && start(k + 1) == next
    ensures start(k) <= day < start(k + 1) <==> first <= day < next
  {
  }

  /** The month of a day is the one month that contains it. */
  lemma MonthOfContains(day: nat, k: int)
    ensures MonthStart(k) <= day < MonthStart(k + 1) <==> MonthOf(day) == k
  {
    MonthsAreScale();
    AppliedStart(MonthStart, k, MonthStart(k), MonthStart(k + 1), day);
    ContainsIsLocate(MonthStart, day, k);
  }

  lemma ContainsIsLocate(start: int -> int, day: nat, k: int)
    requires IsScale(start) && start(EPOCH_MONTH) == 0
    ensures start(k) <= day < start(k + 1) <==> Locate(start, EPOCH_MONTH, day) == k
  {
    if start(k) <= day < start(k + 1) {
      PeriodUnique(start, day, k, Locate(start, EPOCH_MONTH, day));
    }
  }
}
