/**
 The proleptic Gregorian calendar the board's dates live in. A date is a day
 number, day 0 being 0000-01-01 (a Saturday); a month is the number
 `12 * year + month0`. All divisions are by positive constants, where Dafny's
 Euclidean division is the floor the calendar needs for negative years.
 */
module Civil {
  import opened Prelude
  import opened Arith

  /** Months in one 400-year cycle, and its days. */
  const CYCLE_MONTHS: nat := 4800
  const CYCLE_DAYS: nat := 146097

  /** 9999-12-31, the last date the wire accepts. */
  const LAST_DAY: int := 3652424
  /** 262142-12-31, the last date the date type itself can hold. */
  const MAX_DAY: int := 95745764

  predicate Leap(y: int) {
    y % 4 == 0 && (y % 100 != 0 || y % 400 == 0)
  }

  function MonthLen(n: int): (len: int)
    ensures 28 <= len <= 31
  {
    var m := n % 12;
    if m == 1 then (if Leap(n / 12) then 29 else 28)
    else if m == 3 || m == 5 || m == 8 || m == 10 then 30
    else 31
  }

  /** The day number of the first of month `n`: months follow one another from month 0. */
  function MonthStart(n: int): int
    decreases if n < 0 then -n else n
  {
    if n == 0 then 0
    else if n > 0 then MonthStart(n - 1) + MonthLen(n - 1)
    else MonthStart(n + 1) - MonthLen(n)
  }

  lemma MonthStep(n: int)
    ensures MonthStart(n + 1) == MonthStart(n) + MonthLen(n)
  {
    hide MonthLen;
  }

  /** The Gregorian year count in closed form. */
  function DaysBeforeYear(y: int): int {
    365 * y + (y + 3) / 4 - (y + 99) / 100 + (y + 399) / 400
  }

  lemma CenturiesNest(y: int)
    ensures y % 100 == 0 ==> y % 4 == 0
    ensures y % 400 == 0 ==> y % 100 == 0
  {
    DivMod(y, 100);
    if y % 100 == 0 { DivUnique(y, 4, 25 * (y / 100), 0); }
    DivMod(y, 400);
    if y % 400 == 0 { DivUnique(y, 100, 4 * (y / 400), 0); }
  }

  lemma YearStep(y: int)
    ensures DaysBeforeYear(y + 1) == DaysBeforeYear(y) + (if Leap(y) then 366 else 365)
  {
    CeilGrows(y, 4);
    CeilGrows(y, 100);
    CeilGrows(y, 400);
    CenturiesNest(y);
  }

  lemma MonthInYear(y: int, m: int)
    requires 0 <= m < 12
    ensures MonthStart(12 * y + m + 1) == MonthStart(12 * y + m)
              + (if m == 1 then (if Leap(y) then 29 else 28)
                 else if m == 3 || m == 5 || m == 8 || m == 10 then 30 else 31)
  {
    hide MonthStart, Leap;
    MonthStep(12 * y + m);
    DivUnique(12 * y + m, 12, y, m);
  }

  lemma YearLength(y: int)
    ensures MonthStart(12 * y + 12) == MonthStart(12 * y) + (if Leap(y) then 366 else 365)
  {
    hide MonthStart, Leap;
    MonthInYear(y, 0);
    MonthInYear(y, 1);
    MonthInYear(y, 2);
    MonthInYear(y, 3);
    MonthInYear(y, 4);
    MonthInYear(y, 5);
    MonthInYear(y, 6);
    MonthInYear(y, 7);
    MonthInYear(y, 8);
    MonthInYear(y, 9);
    MonthInYear(y, 10);
    MonthInYear(y, 11);
  }

  /** Counting month by month agrees with the closed form at every new year. */
  lemma {:induction false} YearStart(y: int)
    ensures MonthStart(12 * y) == DaysBeforeYear(y)
    decreases if y < 0 then -y else y
  {
    hide Leap, DaysBeforeYear, MonthStart;
    if y == 0 {
      EpochMonth();
    } else if y > 0 {
      YearStart(y - 1);
      YearLength(y - 1);
      YearStep(y - 1);
    } else {
      YearStart(y + 1);
      YearLength(y);
      YearStep(y);
    }
  }

  lemma EpochMonth()
    ensures MonthStart(12 * 0) == 0 == DaysBeforeYear(0)
    ensures MonthStart(0) == 0
  {
  }

  lemma YearCycle(y: int, c: int)
    ensures Leap(y + 400 * c) == Leap(y)
    ensures DaysBeforeYear(y + 400 * c) == DaysBeforeYear(y) + CYCLE_DAYS * c
  {
    DivShift(y, 400, c);
    DivShift(y, 100, 4 * c);
    DivShift(y, 4, 100 * c);
    DivShift(y + 3, 4, 100 * c);
    DivShift(y + 99, 100, 4 * c);
    DivShift(y + 399, 400, c);
  }

  /** Month lengths repeat with the 400-year cycle. */
  lemma MonthCycle(n: int, c: int)
    ensures MonthLen(n + CYCLE_MONTHS * c) == MonthLen(n)
  {
    hide DaysBeforeYear, Leap;
    DivShift(n, 12, 400 * c);
    YearCycle(n / 12, c);
  }

  function MonthSearch(d: int, n: int): (m: int)
    requires MonthStart(n) <= d
    ensures n <= m && MonthStart(m) <= d < MonthStart(m + 1)
    decreases d - MonthStart(n)
  {
    MonthStep(n);
    if d < MonthStart(n + 1) then n else MonthSearch(d, n + 1)
  }

  lemma CycleStart(d: int)
    ensures MonthStart(CYCLE_MONTHS * (d / CYCLE_DAYS)) <= d
  {
    hide MonthStart, DaysBeforeYear;
    var c := d / CYCLE_DAYS;
    YearStart(400 * c);
    assert 12 * (400 * c) == CYCLE_MONTHS * c;
    EpochMonth();
    YearCycle(0, c);
    assert 0 + 400 * c == 400 * c;
  }

  /** The month a date lies in. */
  function MonthOf(d: int): (m: int)
    ensures MonthStart(m) <= d < MonthStart(m + 1)
  {
    CycleStart(d);
    MonthSearch(d, CYCLE_MONTHS * (d / CYCLE_DAYS))
  }

  /** The day of the month, from 1. */
  function DayOfMonth(d: int): (day: int)
    ensures 1 <= day <= MonthLen(MonthOf(d))
  {
    MonthStep(MonthOf(d));
    d - MonthStart(MonthOf(d)) + 1
  }

  /** The date on day `day` of month `n`, when that month has the day. */
  function DateIn(n: int, day: int): (r: Option<int>)
  {
    if 1 <= day <= MonthLen(n) then Some(MonthStart(n) + day - 1) else None
  }

  /** Days from Monday, 0 to 6. */
  function Weekday(d: int): (w: nat)
    ensures w < 7
  {
    (d + 5) % 7
  }

  lemma {:induction false} MonthStartMonotone(a: int, b: int)
    requires a <= b
    ensures MonthStart(a) + 28 * (b - a) <= MonthStart(b)
    decreases b - a
  {
    hide MonthStart, MonthLen;
    if a < b {
      MonthStartMonotone(a, b - 1);
      MonthStep(b - 1);
    }
  }

  /** A date between the starts of two months lies in a month between them. */
  lemma MonthOfBounds(d: int, lo: int, hi: int)
    requires MonthStart(lo) <= d < MonthStart(hi)
    ensures lo <= MonthOf(d) < hi
  {
    hide MonthStart, MonthOf;
    var m := MonthOf(d);
    if m < lo { MonthStartMonotone(m + 1, lo); }
    if m >= hi { MonthStartMonotone(hi, m); }
  }

  /** `DateIn` and the pair (`MonthOf`, `DayOfMonth`) are inverse. */
  lemma DateInRoundTrip(n: int, day: int, d: int)
    ensures DateIn(n, day) == Some(d) <==> (MonthOf(d) == n && DayOfMonth(d) == day)
  {
    hide MonthStart, MonthLen, MonthOf;
    var first := MonthStart(n);
    assert MonthStart(n + 1) == first + MonthLen(n) by { MonthStep(n); }
    if DateIn(n, day) == Some(d) {
      MonthOfBounds(d, n, n + 1);
    }
  }

  lemma MonthOfMonotone(a: int, b: int)
    requires a <= b
    ensures MonthOf(a) <= MonthOf(b)
  {
    hide MonthStart, MonthOf;
    if MonthOf(b) < MonthOf(a) {
      MonthStartMonotone(MonthOf(b) + 1, MonthOf(a));
    }
  }

  lemma StartMonthNonNegative(start: int)
    requires 0 <= start
    ensures 0 <= MonthOf(start)
  {
    hide MonthOf, MonthStart;
    EpochMonth();
    MonthOfBounds(start, 0, MonthOf(start) + 1);
  }

  lemma LastMonth()
    ensures MonthStart(120000) == LAST_DAY + 1
  {
    hide MonthStart;
    YearStart(10000);
    assert 12 * 10000 == 120000;
  }

  /** Years 0 to 9999 are exactly the days 0 to `LAST_DAY`. */
  lemma WireYears(d: int)
    ensures 0 <= MonthOf(d) < 120000 <==> 0 <= d <= LAST_DAY
  {
    hide MonthStart, MonthOf;
    EpochMonth();
    LastMonth();
    if 0 <= d <= LAST_DAY {
      MonthOfBounds(d, 0, 120000);
    } else if d < 0 {
      if 0 <= MonthOf(d) { MonthStartMonotone(0, MonthOf(d)); }
    } else if MonthOf(d) < 120000 {
      MonthStartMonotone(MonthOf(d) + 1, 120000);
    }
  }
}
