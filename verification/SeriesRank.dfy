/** `Position` is the rank function of the plain rule, frequency by frequency. */
module SeriesRank {
  import opened Prelude
  import opened Arith
  import opened Civil
  import opened Mask
  import opened Series

  /** A stretch without hits leaves the rank where it was. */
  lemma {:induction false} RankGap(start: int, r: Repeat, a: int, b: int)
    requires 1 <= r.interval && start <= a <= b
    requires forall d :: a <= d < b ==> !Hit(start, r, d)
    ensures Rank(start, r, b) == Rank(start, r, a)
    decreases b - a
  {
    if a < b {
      RankGap(start, r, a, b - 1);
    }
  }

  // -------------------------------------------------------------------- daily

  lemma {:induction false} DailyRank(start: int, r: Repeat, x: nat)
    requires 1 <= r.interval && r.freq.Daily?
    ensures Rank(start, r, start + x) == (x + r.interval - 1) / r.interval
  {
    if x == 0 {
      DivUnique(r.interval - 1, r.interval, 0, r.interval - 1);
    } else {
      DailyRank(start, r, x - 1);
      CeilGrows(x - 1, r.interval);
    }
  }

  // ------------------------------------------------------------------- weekly

  lemma DayMaskHas(start: int, r: Repeat, o: nat)
    requires ValidRepeat(r) && o < 8
    ensures Has(DayMask(start, r), o) <==> (if r.byday == [] then o == Weekday(start) else o in r.byday)
  {
    if r.byday == [] {
      BitDistinct(Weekday(start), o);
    } else {
      MaskOfHas(r.byday, o);
    }
  }

  /** Hits among the first `at` days counted from the start week's Monday. */
  function WeeklyCount(mask: bv8, so: nat, interval: nat, at: nat): int
    requires so < 7 && 1 <= interval
  {
    var w, o := at / 7, at % 7;
    if w == 0 then 1 + MaskBetween(mask, so + 1, o)
    else 1 + MaskBetween(mask, so + 1, 7) + ((w - 1) / interval) * CountOnes(mask)
         + (if w % interval == 0 then MaskBetween(mask, 0, o) else 0)
  }

  lemma FloorStep(w: nat, i: nat)
    requires 1 <= i && 1 <= w
    ensures w / i == (w - 1) / i + (if w % i == 0 then 1 else 0)
  {
    var q, m := w / i, w % i;
    assert w == i * q + m;
    if m == 0 {
      assert i * (q - 1) == i * q - i;
      DivUnique(w - 1, i, q - 1, i - 1);
    } else {
      DivUnique(w - 1, i, q, m - 1);
    }
  }

  lemma WithinWeekStep(mask: bv8, so: nat, interval: nat, at: nat)
    requires so < 7 && 1 <= interval && so < at && at % 7 < 6
    ensures WeeklyCount(mask, so, interval, at + 1) == WeeklyCount(mask, so, interval, at)
              + (if Has(mask, at % 7) && (at / 7) % interval == 0 then 1 else 0)
  {
    hide MaskBetween, CountOnes, Has;
    var w, o := at / 7, at % 7;
    DivUnique(at + 1, 7, w, o + 1);
    if w == 0 {
      MaskBetweenStep(mask, so + 1, o);
      DivUnique(0, interval, 0, 0);
    } else {
      MaskBetweenStep(mask, 0, o);
    }
  }

  lemma ProductStep(w: nat, interval: nat, ones: nat)
    requires 1 <= interval && 1 <= w
    ensures (w / interval) * ones == ((w - 1) / interval) * ones + (if w % interval == 0 then ones else 0)
  {
    FloorStep(w, interval);
  }

  lemma AcrossWeekStep(mask: bv8, so: nat, interval: nat, at: nat)
    requires so < 7 && 1 <= interval && so < at && at % 7 == 6 && !Has(mask, 7)
    ensures WeeklyCount(mask, so, interval, at + 1) == WeeklyCount(mask, so, interval, at)
              + (if Has(mask, at % 7) && (at / 7) % interval == 0 then 1 else 0)
  {
    hide MaskBetween, CountOnes, Has;
    var w := at / 7;
    DivUnique(at + 1, 7, w + 1, 0);
    EmptySpan(mask, 0, 0);
    if w == 0 {
      DivUnique(0, interval, 0, 0);
      MaskBetweenStep(mask, so + 1, 6);
    } else {
      MaskBetweenStep(mask, 0, 6);
      WholeWeek(mask);
      ProductStep(w, interval, CountOnes(mask));
    }
  }

  lemma WeeklyCountStep(mask: bv8, so: nat, interval: nat, at: nat)
    requires so < 7 && 1 <= interval && so < at && !Has(mask, 7)
    ensures WeeklyCount(mask, so, interval, at + 1) == WeeklyCount(mask, so, interval, at)
              + (if Has(mask, at % 7) && (at / 7) % interval == 0 then 1 else 0)
  {
    if at % 7 < 6 {
      WithinWeekStep(mask, so, interval, at);
    } else {
      AcrossWeekStep(mask, so, interval, at);
    }
  }

  /** A date's week and weekday, counted from the start week's Monday. */
  lemma WeekCoordinates(start: int, at: nat)
    ensures var d := start - Weekday(start) + at;
            Weekday(d) == at % 7 && WeekOf(d) - WeekOf(start) == at / 7
  {
    DivShift(at, 7, WeekOf(start));
    assert start - Weekday(start) + at + 5 == at + 7 * WeekOf(start);
  }

  /** The day after the start has one hit before it. */
  lemma WeeklyRankFirst(start: int, r: Repeat)
    requires ValidRepeat(r) && r.freq.Weekly?
    ensures Rank(start, r, start + 1) == 1 == WeeklyCount(DayMask(start, r), Weekday(start), r.interval, Weekday(start) + 1)
  {
    hide MaskBetween, CountOnes, Has, DayMask;
    var so, mask := Weekday(start), DayMask(start, r);
    DayMaskHas(start, r, 7);
    EmptySpan(mask, so + 1, so + 1);
    EmptySpan(mask, 0, 0);
    DivUnique(0, r.interval, 0, 0);
  }

  lemma {:induction false} WeeklyRank(start: int, r: Repeat, at: nat)
    requires ValidRepeat(r) && r.freq.Weekly? && Weekday(start) < at
    ensures Rank(start, r, start - Weekday(start) + at)
         == WeeklyCount(DayMask(start, r), Weekday(start), r.interval, at)
  {
    hide MaskBetween, CountOnes, Has, DayMask, WeeklyCount;
    var so, mask := Weekday(start), DayMask(start, r);
    if at == so + 1 {
      WeeklyRankFirst(start, r);
    } else {
      DayMaskHas(start, r, 7);
      WeeklyRank(start, r, at - 1);
      WeeklyCountStep(mask, so, r.interval, at - 1);
      WeekCoordinates(start, at - 1);
      DayMaskHas(start, r, (at - 1) % 7);
    }
  }

  lemma WeeklyCountIsPosition(mask: bv8, so: nat, interval: nat, at: nat)
    requires so < 7 && 1 <= interval && so < at && (at / 7) % interval == 0
    ensures WeeklyPosition(mask, so, at % 7, at / 7, interval) == Some(WeeklyCount(mask, so, interval, at))
  {
    var w := at / 7;
    assert w == interval * (w / interval);
    MulSign(interval, w / interval);
    if w > 0 {
      FloorStep(w, interval);
    }
  }

  lemma WeeklyPositionIsRank(start: int, r: Repeat, date: int)
    requires ValidRepeat(r) && r.freq.Weekly? && start < date
    ensures WeeklyAt(start, r, date) ==
            if Hit(start, r, date) then Some(Rank(start, r, date)) else None
  {
    hide Rank, MaskBetween, DayMask, WeeklyCount, CountOnes;
    var so := Weekday(start);
    var at: nat := date - start + so;
    WeekCoordinates(start, at);
    WeeksNonNegative(start, date);
    DayMaskHas(start, r, Weekday(date));
    if Hit(start, r, date) {
      WeeklyRank(start, r, at);
      WeeklyCountIsPosition(DayMask(start, r), so, r.interval, at);
    }
  }

  // ------------------------------------------------------------------ monthly

  /** How many of the months `first`, `first + interval`, ... (`k` of them) have the day. */
  function StrideCount(first: int, interval: nat, day: int, k: nat): nat {
    if k == 0 then 0
    else StrideCount(first, interval, day, k - 1)
         + (if day <= MonthLen(first + (k - 1) * interval) then 1 else 0)
  }

  /** In the stretch that starts at a series month only that month can be hit. */
  lemma SeriesMonth(start: int, r: Repeat, k: nat, d: int)
    requires ValidRepeat(r) && r.freq.Monthly? && k % r.interval == 0 && start < d
    requires k <= MonthOf(d) - MonthOf(start) < k + r.interval
    ensures Hit(start, r, d) <==> DateIn(MonthOf(start) + k, DayOfMonth(start)) == Some(d)
  {
    hide MonthOf, DayOfMonth, DateIn;
    DateInRoundTrip(MonthOf(start) + k, DayOfMonth(start), d);
    if (MonthOf(d) - MonthOf(start)) % r.interval == 0 {
      SameMultiple(k, MonthOf(d) - MonthOf(start), r.interval);
    }
  }

  /** One stretch of months `a..b` adds one hit when its first month has the day. */
  lemma MonthlyStretch(start: int, r: Repeat, k: nat, from: int)
    requires ValidRepeat(r) && r.freq.Monthly? && 2 <= k
    requires from == MonthOf(start) + (k - 1) * r.interval
    ensures start < MonthStart(from)
    ensures Rank(start, r, MonthStart(from + r.interval)) == Rank(start, r, MonthStart(from))
              + (if DayOfMonth(start) <= MonthLen(from) then 1 else 0)
  {
    hide MonthStart, MonthLen, MonthOf, DayOfMonth;
    var to, k' := from + r.interval, from - MonthOf(start);
    assert k' >= r.interval && k' % r.interval == 0 by {
      MulLe(1, k - 1, r.interval);
      DivUnique(k', r.interval, k - 1, 0);
    }
    var a, b := MonthStart(from), MonthStart(to);
    assert start < a && a + 28 <= b by {
      MonthStartMonotone(MonthOf(start) + 1, from);
      MonthStartMonotone(from, to);
    }
    var day := DayOfMonth(start);
    forall d | a <= d < b
      ensures Hit(start, r, d) <==> DateIn(from, day) == Some(d)
    {
      MonthOfBounds(d, from, to);
      SeriesMonth(start, r, k', d);
    }
    StretchRank(start, r, a, b, DateIn(from, day));
    if day <= MonthLen(from) {
      assert a + day - 1 < b by { MonthStep(from); MonthStartMonotone(from + 1, to); }
    }
  }

  /** A stretch whose only hit can be `h`. */
  lemma StretchRank(start: int, r: Repeat, a: int, b: int, h: Option<int>)
    requires 1 <= r.interval && start <= a <= b
    requires forall d :: a <= d < b ==> (Hit(start, r, d) <==> h == Some(d))
    ensures Rank(start, r, b) == Rank(start, r, a) + (if h.Some? && a <= h.value < b then 1 else 0)
  {
    if h.Some? && a <= h.value < b {
      RankGap(start, r, a, h.value);
      RankGap(start, r, h.value + 1, b);
    } else {
      RankGap(start, r, a, b);
    }
  }

  lemma MonthlyFirstStretch(start: int, r: Repeat)
    requires ValidRepeat(r) && r.freq.Monthly?
    ensures start < MonthStart(MonthOf(start) + r.interval)
    ensures Rank(start, r, MonthStart(MonthOf(start) + r.interval)) == 1
  {
    hide MonthStart, MonthLen, MonthOf, DayOfMonth, DateIn;
    var first, day := MonthOf(start), DayOfMonth(start);
    var b := MonthStart(first + r.interval);
    assert start < b by { MonthStartMonotone(first + 1, first + r.interval); }
    DateInRoundTrip(first, day, start);
    forall d | start + 1 <= d < b
      ensures !Hit(start, r, d)
    {
      MonthOfMonotone(start, d);
      MonthOfBounds(d, MonthOf(d), first + r.interval);
      DivUnique(0, r.interval, 0, 0);
      SeriesMonth(start, r, 0, d);
    }
    RankGap(start, r, start + 1, b);
    assert Rank(start, r, start + 1) == 1;
  }

  lemma {:induction false} MonthlyRank(start: int, r: Repeat, k: nat)
    requires ValidRepeat(r) && r.freq.Monthly? && 1 <= k
    ensures Rank(start, r, MonthStart(MonthOf(start) + k * r.interval))
         == StrideCount(MonthOf(start), r.interval, DayOfMonth(start), k)
  {
    hide MonthStart, MonthLen, MonthOf, DayOfMonth;
    var first, day := MonthOf(start), DayOfMonth(start);
    if k == 1 {
      MonthlyFirstStretch(start, r);
      assert StrideCount(first, r.interval, day, 0) == 0;
      assert first + (1 - 1) * r.interval == first;
    } else {
      MonthlyRank(start, r, k - 1);
      var from := first + (k - 1) * r.interval;
      MonthlyStretch(start, r, k, from);
      assert from + r.interval == first + k * r.interval;
    }
  }

  lemma MonthlyHitIsCounted(start: int, r: Repeat, date: int, k: nat)
    requires ValidRepeat(r) && r.freq.Monthly? && start < date
    requires DayOfMonth(date) == DayOfMonth(start) && MonthOf(date) - MonthOf(start) == k * r.interval
    ensures Rank(start, r, date) == StrideCount(MonthOf(start), r.interval, DayOfMonth(start), k)
  {
    hide MonthStart, MonthLen, MonthOf, DayOfMonth, DateIn;
    var first, day, m := MonthOf(start), DayOfMonth(start), MonthOf(date);
    DateInRoundTrip(first, day, start);
    DateInRoundTrip(m, day, date);
    MonthOfMonotone(start, date);
    assert m != first;
    assert k > 0 by { MulSign(r.interval, k); }
    MonthlyRank(start, r, k);
    var a := MonthStart(m);
    assert start < a && a <= date by { MonthStartMonotone(first + 1, m); }
    forall d | a <= d < date
      ensures !Hit(start, r, d)
    {
      MonthOfMonotone(d, date);
      MonthOfBounds(d, m, MonthOf(d) + 1);
      DivUnique(k * r.interval, r.interval, k, 0);
      SeriesMonth(start, r, k * r.interval, d);
    }
    RankGap(start, r, a, date);
  }

  lemma {:induction false} StrideCountShortDay(first: int, interval: nat, day: int, k: nat)
    requires day <= 28
    ensures StrideCount(first, interval, day, k) == k
  {
    if k > 0 {
      StrideCountShortDay(first, interval, day, k - 1);
    }
  }

  /** A congruent month of the cycle has the day exactly when the month has. */
  lemma CycleMonthAgrees(first: nat, interval: nat, j: nat, day: int)
    requires 1 <= day
    ensures CycleMonthHas((first % CYCLE_MONTHS + j * (interval % CYCLE_MONTHS)) % CYCLE_MONTHS, day)
       <==> day <= MonthLen(first + j * interval)
  {
    var m0, step := first % CYCLE_MONTHS, interval % CYCLE_MONTHS;
    var c := first / CYCLE_MONTHS + j * (interval / CYCLE_MONTHS);
    var raw := m0 + j * step;
    assert first + j * interval == raw + CYCLE_MONTHS * c by {
      assert interval == CYCLE_MONTHS * (interval / CYCLE_MONTHS) + step;
      assert j * interval == CYCLE_MONTHS * (j * (interval / CYCLE_MONTHS)) + j * step;
    }
    var a := raw % CYCLE_MONTHS;
    assert raw == a + CYCLE_MONTHS * (raw / CYCLE_MONTHS);
    assert 12 * (2000 + a / 12) + a % 12 == a + CYCLE_MONTHS * 5;
    CycleMonthLens(a, raw / CYCLE_MONTHS, c);
  }

  lemma CycleMonthLens(a: int, c: int, c': int)
    ensures MonthLen(a + CYCLE_MONTHS * c + CYCLE_MONTHS * c') == MonthLen(a + CYCLE_MONTHS * 5) == MonthLen(a)
  {
    hide MonthLen, MonthStart;
    MonthCycle(a, c);
    MonthCycle(a + CYCLE_MONTHS * c, c');
    MonthCycle(a, 5);
  }

  lemma {:induction false} CycleCountIsStrideCount(first: nat, interval: nat, day: int, k: nat)
    requires 1 <= day
    ensures CycleCount(first % CYCLE_MONTHS, interval % CYCLE_MONTHS, day, k) == StrideCount(first, interval, day, k)
  {
    hide MonthLen, CycleMonthHas;
    if k > 0 {
      CycleCountIsStrideCount(first, interval, day, k - 1);
      CycleMonthAgrees(first, interval, k - 1, day);
    }
  }

  lemma {:induction false} OnePeriod(m0: nat, step: nat, day: int, n: nat)
    ensures CycleCount(m0, step, day, Period(step) + n)
         == CycleCount(m0, step, day, Period(step)) + CycleCount(m0, step, day, n)
  {
    hide CycleMonthHas, Period;
    if n > 0 {
      OnePeriod(m0, step, day, n - 1);
      var c := PeriodWraps(step);
      var p := Period(step);
      assert m0 + (p + n - 1) * step == (m0 + (n - 1) * step) + CYCLE_MONTHS * c;
      DivShift(m0 + (n - 1) * step, CYCLE_MONTHS, c);
    }
  }

  lemma {:induction false} WholePeriods(m0: nat, step: nat, day: int, q: nat, n: nat)
    ensures CycleCount(m0, step, day, q * Period(step) + n)
         == q * CycleCount(m0, step, day, Period(step)) + CycleCount(m0, step, day, n)
  {
    hide CycleMonthHas, Period, CycleCount;
    var p := Period(step);
    var one := CycleCount(m0, step, day, p);
    if q > 0 {
      WholePeriods(m0, step, day, q - 1, n);
      var rest := (q - 1) * p + n;
      assert rest >= 0 by { MulNonNegative(q - 1, p); }
      assert q * p + n == p + rest;
      assert q * one == (q - 1) * one + one;
      OnePeriod(m0, step, day, rest);
    } else {
      assert 0 * p == 0 && 0 * one == 0;
    }
  }

  lemma TableEntries(m0: nat, step: nat, day: int)
    ensures var table := PrefixTable(m0, step, day);
            |table| == Period(step) + 1 && forall i: nat :: i <= Period(step) ==> table[i] == CycleCount(m0, step, day, i)
  {
    hide CycleCount, Period;
  }

  lemma TableCountIsCycleCount(m0: nat, step: nat, day: int, k: nat)
    ensures |PrefixTable(m0, step, day)| > 1
    ensures TableCount(PrefixTable(m0, step, day), k) == CycleCount(m0, step, day, k)
  {
    hide CycleCount, Period, PrefixTable;
    PeriodPositive(step);
    TableEntries(m0, step, day);
    var p, table := Period(step), PrefixTable(m0, step, day);
    WholePeriods(m0, step, day, k / p, k % p);
    DivMod(k, p);
  }

  lemma TableIsStrideCount(start: int, interval: nat, k: nat)
    requires 0 <= MonthOf(start)
    ensures MonthsWithDay(start, interval, k) == StrideCount(MonthOf(start), interval, DayOfMonth(start), k)
  {
    hide MonthOf, DayOfMonth, CycleCount, Period, PrefixTable, TableCount, StrideCount;
    var first, day := MonthOf(start), DayOfMonth(start);
    if day <= 28 {
      StrideCountShortDay(first, interval, day, k);
    } else {
      TableCountIsCycleCount(first % CYCLE_MONTHS, interval % CYCLE_MONTHS, day, k);
      CycleCountIsStrideCount(first, interval, day, k);
    }
  }

  lemma MonthlyPositionIsRank(start: int, r: Repeat, date: int)
    requires ValidRepeat(r) && r.freq.Monthly? && start < date && 0 <= start
    ensures MonthlyAt(start, r, date) ==
            if Hit(start, r, date) then Some(Rank(start, r, date)) else None
  {
    hide MonthOf, DayOfMonth, MonthsWithDay, Rank, StrideCount, OnWeekday, WeekOf;
    var first := MonthOf(start);
    assert 0 <= first by { StartMonthNonNegative(start); }
    MonthOfMonotone(start, date);
    var months := MonthOf(date) - first;
    if Hit(start, r, date) {
      var k := months / r.interval;
      DivMod(months, r.interval);
      MonthlyHitIsCounted(start, r, date, k);
      TableIsStrideCount(start, r.interval, k);
    }
  }

  /**
   `Position` answers exactly on the dates the plain rule hits, with the
   number of hits before.
   */
  lemma PositionIsRank(start: int, r: Repeat, date: int)
    requires ValidRepeat(r) && 0 <= start
    ensures Position(start, r, date) ==
            if Hit(start, r, date) then Some(Rank(start, r, date)) else None
  {
    hide WeeklyAt, MonthlyAt;
    if start < date {
      match r.freq
      case Daily =>
        DailyRank(start, r, date - start);
        if Hit(start, r, date) {
          CeilGrows(date - start, r.interval);
          FloorStep(date - start, r.interval);
          DivShift(date - start, r.interval, 1);
        }
      case Weekly => WeeklyPositionIsRank(start, r, date);
      case Monthly => MonthlyPositionIsRank(start, r, date);
    }
  }
}
