/**
 Jumping to the next hit of a series. `NextHit` computes with `u64` arithmetic
 and bounded loops; its contract says it is exact: the least hit at or after
 `from` up to the horizon of the frequency, and `None` only when there is none,
 but for one weekly interval at which an unchecked sum overflows.
 */
module NextHit {
  import opened Prelude
  import opened Arith
  import opened Civil
  import opened Mask
  import opened Series
  import opened SeriesRank

  const I64_MAX: nat := 0x7FFF_FFFF_FFFF_FFFF
  const I32_MAX: nat := 0x7FFF_FFFF

  /** The last date a jump can reach: monthly jumps stop with year 9999. */
  function Horizon(r: Repeat): int {
    if r.freq.Monthly? then LAST_DAY else MAX_DAY
  }

  ghost predicate NoHits(start: int, r: Repeat, a: int, b: int)
    requires 1 <= r.interval
  {
    forall d :: a <= d < b ==> !Hit(start, r, d)
  }

  ghost predicate IsNextHit(start: int, r: Repeat, from: int, res: Option<int>)
    requires 1 <= r.interval
  {
    match res
    case Some(d) => from <= d <= Horizon(r) && Hit(start, r, d) && NoHits(start, r, from, d)
    case None => NoHits(start, r, from, Horizon(r) + 1)
  }

  /** `checked_add_days` on a date. */
  function AddDays(d: int, n: nat): (r: Option<int>) {
    if d + n <= MAX_DAY then Some(d + n) else None
  }

  /** The least masked weekday from `o` on. */
  function FindDay(mask: bv8, o: nat): (r: Option<nat>)
    requires o <= 7
    ensures r.Some? ==> o <= r.value < 7 && Has(mask, r.value) && forall x :: o <= x < r.value ==> !Has(mask, x)
    ensures r.None? ==> forall x :: o <= x < 7 ==> !Has(mask, x)
    decreases 7 - o
  {
    if o == 7 then None else if Has(mask, o) then Some(o) else FindDay(mask, o + 1)
  }

  function DivCeil(a: nat, b: nat): nat
    requires 1 <= b
  {
    (a + b - 1) / b
  }

  lemma CeilBounds(a: nat, i: nat)
    requires 1 <= i
    ensures a <= DivCeil(a, i) * i < a + i
  {
    DivMod(a + i - 1, i);
  }

  lemma CeilLeast(a: nat, i: nat, x: int)
    requires 1 <= i && a <= x && x % i == 0
    ensures DivCeil(a, i) * i <= x
  {
    hide DivCeil;
    CeilBounds(a, i);
    DivMod(x, i);
    var q, c := x / i, DivCeil(a, i);
    assert (q + 1) * i == q * i + i;
    MulCancelLess(c, q + 1, i);
    MulLe(c, q, i);
  }

  /** `DivCeil(a, i) * i` is the least multiple of `i` not below `a`. */
  lemma CeilMultiple(a: nat, i: nat)
    requires 1 <= i
    ensures a <= DivCeil(a, i) * i < a + i && (DivCeil(a, i) * i) % i == 0
    ensures forall x: int :: a <= x && x % i == 0 ==> DivCeil(a, i) * i <= x
  {
    hide DivCeil;
    CeilBounds(a, i);
    DivUnique(DivCeil(a, i) * i, i, DivCeil(a, i), 0);
    forall x: int | a <= x && x % i == 0
      ensures DivCeil(a, i) * i <= x
    {
      CeilLeast(a, i, x);
    }
  }

  method NextDaily(start: int, r: Repeat, from: int) returns (res: Option<int>)
    requires ValidRepeat(r) && r.freq.Daily? && 0 <= start < from <= MAX_DAY
    ensures IsNextHit(start, r, from, res)
  {
    var off: nat := from - start;
    CeilMultiple(off, r.interval);
    var n := CheckedMul(DivCeil(off, r.interval), r.interval);
    if n.None? { return None; }
    res := AddDays(start, n.value);
  }

  // ------------------------------------------------------------------- weekly

  /** A weekly hit, in days from the start week's Monday. */
  lemma WeeklyHitAt(start: int, r: Repeat, x: nat)
    requires ValidRepeat(r) && r.freq.Weekly? && Weekday(start) < x
    ensures Hit(start, r, start - Weekday(start) + x)
       <==> Has(DayMask(start, r), x % 7) && (x / 7) % r.interval == 0
  {
    WeekCoordinates(start, x);
    DayMaskHas(start, r, x % 7);
  }

  /** Between a week off the series and the next series week nothing is hit. */
  lemma OffWeeks(start: int, r: Repeat, at: nat, next: nat)
    requires ValidRepeat(r) && r.freq.Weekly? && Weekday(start) < at && (at / 7) % r.interval != 0
    requires next == (at / 7 / r.interval + 1) * r.interval
    ensures at / 7 < next && next % r.interval == 0
    ensures NoHits(start, r, start - Weekday(start) + at, start - Weekday(start) + next * 7)
  {
    var i, w := r.interval, at / 7;
    DivMod(w, i);
    DivUnique(next, i, w / i + 1, 0);
    assert next == (w / i) * i + i;
    forall d | start - Weekday(start) + at <= d < start - Weekday(start) + next * 7
      ensures !Hit(start, r, d)
    {
      var x := d - start + Weekday(start);
      WeeklyHitAt(start, r, x);
      assert w <= x / 7 < next;
      DivUnique(x / 7, i, w / i, x / 7 - (w / i) * i);
    }
  }

  /** Past the last masked day of a series week nothing is hit before the next one. */
  lemma RestOfStretch(start: int, r: Repeat, at: nat, next: nat)
    requires ValidRepeat(r) && r.freq.Weekly? && Weekday(start) < at && (at / 7) % r.interval == 0
    requires forall o: nat :: at % 7 <= o < 7 ==> !Has(DayMask(start, r), o)
    requires next == at / 7 + r.interval
    ensures next % r.interval == 0
    ensures NoHits(start, r, start - Weekday(start) + at, start - Weekday(start) + next * 7)
  {
    hide Hit, Has, DayMask, Weekday;
    DivShift(at / 7, r.interval, 1);
    forall d | start - Weekday(start) + at <= d < start - Weekday(start) + next * 7
      ensures !Hit(start, r, d)
    {
      var x: nat := d - start + Weekday(start);
      WeeklyHitAt(start, r, x);
      if (x / 7) % r.interval == 0 {
        SameMultiple(at / 7, x / 7, r.interval);
      }
    }
  }

  lemma MaskNotEmpty(start: int, r: Repeat)
    requires ValidRepeat(r)
    ensures FindDay(DayMask(start, r), 0).Some?
  {
    var o := if r.byday == [] then Weekday(start) else r.byday[0];
    DayMaskHas(start, r, o);
  }

  /** A checked week number times seven, still checked. */
  function DaysOfWeeks(w: Option<nat>): (at: Option<nat>)
    ensures at.Some? ==> w.Some? && at.value == w.value * 7
    ensures at.None? ==> w.None? || w.value * 7 > U64_MAX
  {
    if w.None? then None else CheckedMul(w.value, 7)
  }

  datatype WeekTurn = Done(res: Option<int>) | Again(at: nat) | Overflow

  /** The last week whose days a `u64` can count from: its Monday is one short of the largest number. */
  const LAST_WEEK: nat := 2635249153387078802

  lemma LastWeekFits()
    ensures LAST_WEEK * 7 == U64_MAX - 1
  {
  }

  /** A turn that finds no day from `at` on in a series week. */
  predicate Missed(start: int, r: Repeat, at: nat)
    requires ValidRepeat(r)
  {
    (at / 7) % r.interval != 0 || FindDay(DayMask(start, r), at % 7).None?
  }

  /** The series week a turn that missed jumps to. */
  function NextWeek(r: Repeat, at: nat): nat
    requires 1 <= r.interval
  {
    if (at / 7) % r.interval != 0 then (at / 7 / r.interval + 1) * r.interval else at / 7 + r.interval
  }

  /** The day the turn finds, before it is known to fit. */
  function FoundAt(start: int, r: Repeat, at: nat): nat
    requires ValidRepeat(r) && !Missed(start, r, at)
  {
    at / 7 * 7 + FindDay(DayMask(start, r), at % 7).value
  }

  predicate OnSeriesMonday(r: Repeat, at: nat)
    requires 1 <= r.interval
  {
    at % 7 == 0 && (at / 7) % r.interval == 0
  }

  /** Jumping to series week `next` loses nothing, and a jump past `u64` leaves nothing to find. */
  lemma JumpTo(start: int, r: Repeat, from: int, at: nat, next: nat)
    requires ValidRepeat(r) && r.freq.Weekly? && 0 <= start && next % r.interval == 0
    requires NoHits(start, r, from, start - Weekday(start) + at)
    requires NoHits(start, r, start - Weekday(start) + at, start - Weekday(start) + next * 7)
    ensures OnSeriesMonday(r, next * 7) && NoHits(start, r, from, start - Weekday(start) + next * 7)
    ensures next * 7 > U64_MAX ==> IsNextHit(start, r, from, None)
  {
    hide Hit, Weekday;
    DivUnique(next * 7, 7, next, 0);
  }

  /** The first masked day from here on is the next hit. */
  lemma FoundDay(start: int, r: Repeat, from: int, at: nat, dow: nat)
    requires ValidRepeat(r) && r.freq.Weekly? && 0 <= start < from && from - start + Weekday(start) <= at
    requires NoHits(start, r, from, start - Weekday(start) + at)
    requires (at / 7) % r.interval == 0 && FindDay(DayMask(start, r), at % 7) == Some(dow)
    ensures IsNextHit(start, r, from, AddDays(start - Weekday(start), at / 7 * 7 + dow))
  {
    hide Hit, Weekday, DayMask, Has, FindDay;
    WeeklyHitAt(start, r, at / 7 * 7 + dow);
    DivUnique(at / 7 * 7 + dow, 7, at / 7, dow);
    NoEarlierDay(start, r, at, dow);
  }

  /** What a turn may answer: the next hit, or a later series Monday with nothing before it, or nothing, the day past `u64`. */
  ghost predicate TurnOk(start: int, r: Repeat, from: int, at: nat, t: WeekTurn)
    requires ValidRepeat(r)
  {
    match t
    case Done(res) =>
      IsNextHit(start, r, from, res) && if Missed(start, r, at) then NextWeek(r, at) * 7 > U64_MAX else FoundAt(start, r, at) <= U64_MAX
    case Again(next) =>
      && Missed(start, r, at) && next == NextWeek(r, at) * 7 <= U64_MAX
      && at <= next && OnSeriesMonday(r, next) && NoHits(start, r, from, start - Weekday(start) + next)
    case Overflow => !Missed(start, r, at) && FoundAt(start, r, at) > U64_MAX
  }

  /** Jumping to a week, where its days still fit. */
  lemma JumpTurn(start: int, r: Repeat, from: int, at: nat, w: Option<nat>)
    requires ValidRepeat(r) && r.freq.Weekly? && 0 <= start && Missed(start, r, at)
    requires NextWeek(r, at) % r.interval == 0 && at / 7 < NextWeek(r, at)
    requires NoHits(start, r, from, start - Weekday(start) + at)
    requires NoHits(start, r, start - Weekday(start) + at, start - Weekday(start) + NextWeek(r, at) * 7)
    requires w == if NextWeek(r, at) <= U64_MAX then Some(NextWeek(r, at)) else None
    ensures var a := DaysOfWeeks(w); TurnOk(start, r, from, at, if a.None? then Done(None) else Again(a.value))
  {
    hide NoHits, IsNextHit, OnSeriesMonday, Weekday, Missed, NextWeek;
    JumpTo(start, r, from, at, NextWeek(r, at));
  }

  lemma OffTurn(start: int, r: Repeat, from: int, at: nat)
    requires ValidRepeat(r) && r.freq.Weekly? && 0 <= start < from && from - start + Weekday(start) <= at
    requires NoHits(start, r, from, start - Weekday(start) + at) && (at / 7) % r.interval != 0
    ensures var a := DaysOfWeeks(CheckedMul(at / 7 / r.interval + 1, r.interval));
            TurnOk(start, r, from, at, if a.None? then Done(None) else Again(a.value))
  {
    hide NoHits, TurnOk, DaysOfWeeks, Weekday;
    OffWeeks(start, r, at, NextWeek(r, at));
    JumpTurn(start, r, from, at, CheckedMul(at / 7 / r.interval + 1, r.interval));
  }

  lemma RestTurn(start: int, r: Repeat, from: int, at: nat)
    requires ValidRepeat(r) && r.freq.Weekly? && 0 <= start < from && from - start + Weekday(start) <= at
    requires NoHits(start, r, from, start - Weekday(start) + at) && (at / 7) % r.interval == 0
    requires FindDay(DayMask(start, r), at % 7).None?
    ensures var a := DaysOfWeeks(CheckedAdd(at / 7, r.interval));
            TurnOk(start, r, from, at, if a.None? then Done(None) else Again(a.value))
  {
    hide NoHits, TurnOk, DaysOfWeeks, Weekday, FindDay, Has, DayMask;
    RestOfStretch(start, r, at, at / 7 + r.interval);
    JumpTurn(start, r, from, at, CheckedAdd(at / 7, r.interval));
  }

  /** A series Monday never misses. */
  lemma MondayFinds(start: int, r: Repeat, at: nat)
    requires ValidRepeat(r) && OnSeriesMonday(r, at)
    ensures !Missed(start, r, at)
    ensures FindDay(DayMask(start, r), 0).Some? && FoundAt(start, r, at) == at + FindDay(DayMask(start, r), 0).value
  {
    hide FindDay, DayMask;
    MaskNotEmpty(start, r);
  }

  /** One turn: onto a series week, or to a masked day of it, or past it. The sum of week and day is not checked. */
  method TakeTurn(start: int, r: Repeat, from: int, at: nat) returns (t: WeekTurn)
    requires ValidRepeat(r) && r.freq.Weekly? && 0 <= start < from && from - start + Weekday(start) <= at
    requires NoHits(start, r, from, start - Weekday(start) + at)
    ensures TurnOk(start, r, from, at, t)
  {
    hide DayMask, Weekday, FindDay, NoHits, IsNextHit, AddDays, OnSeriesMonday, DaysOfWeeks, CheckedMul, CheckedAdd;
    var week := at / 7;
    if week % r.interval != 0 {
      OffTurn(start, r, from, at);
      var a := DaysOfWeeks(CheckedMul(week / r.interval + 1, r.interval));
      return if a.None? then Done(None) else Again(a.value);
    }
    var dow := FindDay(DayMask(start, r), at % 7);
    if dow.Some? {
      if week * 7 + dow.value > U64_MAX {
        return Overflow;
      }
      FoundDay(start, r, from, at, dow.value);
      return Done(AddDays(start - Weekday(start), week * 7 + dow.value));
    }
    RestTurn(start, r, from, at);
    var a := DaysOfWeeks(CheckedAdd(week, r.interval));
    return if a.None? then Done(None) else Again(a.value);
  }

  // --------------------------------------------------------------- the overflow

  /** The greatest of `so` and the masked weekdays up to `o`. */
  function LastFrom(mask: bv8, so: nat, o: nat): (l: nat)
    requires so <= o < 7
    ensures so <= l <= o && (l == so || Has(mask, l)) && forall x: nat :: l < x <= o ==> !Has(mask, x)
  {
    if o == so || Has(mask, o) then o else LastFrom(mask, so, o - 1)
  }

  /** The last hit in the week of the start. */
  function LastOfWeek(start: int, r: Repeat): int
    requires ValidRepeat(r)
  {
    start - Weekday(start) + LastFrom(DayMask(start, r), Weekday(start), 6)
  }

  /** A rule whose second series week cannot be counted out: the one interval, and no hits on Mondays or Tuesdays. */
  predicate Overflows(start: int, r: Repeat)
    requires ValidRepeat(r)
  {
    r.freq.Weekly? && r.interval == LAST_WEEK && !Has(DayMask(start, r), 0) && !Has(DayMask(start, r), 1)
  }

  /** The jump from `from` overflows: such a rule, past the last hit of its first week. */
  predicate JumpOverflows(start: int, r: Repeat, from: int)
    requires ValidRepeat(r)
  {
    Overflows(start, r) && from > LastOfWeek(start, r)
  }

  /** From where the search starts, the days of the found week fit. */
  lemma FirstTurnFits(start: int, r: Repeat, at: nat)
    requires ValidRepeat(r) && !Missed(start, r, at) && at <= MAX_DAY + 7
    ensures FoundAt(start, r, at) <= U64_MAX
  {
    hide FindDay, DayMask;
  }

  /** Only the one interval jumps to the last week. */
  lemma JumpsToLast(r: Repeat, at: nat)
    requires 1 <= r.interval && at <= MAX_DAY + 7
    ensures NextWeek(r, at) == LAST_WEEK <==> r.interval == LAST_WEEK
  {
    var w, i := at / 7, r.interval;
    if i <= w {
      DivMod(w, i);
      assert (w / i + 1) * i == (w / i) * i + i;
    } else {
      DivUnique(w, i, 0, w);
    }
  }

  /** With that interval the first turn misses exactly past the last hit of the first week. */
  lemma MissedIsLate(start: int, r: Repeat, from: int)
    requires ValidRepeat(r) && r.freq.Weekly? && 0 <= start < from <= MAX_DAY && r.interval == LAST_WEEK
    ensures Missed(start, r, from - start + Weekday(start)) <==> from > LastOfWeek(start, r)
  {
    hide Has, DayMask;
    var at: nat, so := from - start + Weekday(start), Weekday(start);
    var mask := DayMask(start, r);
    var l := LastFrom(mask, so, 6);
    DivUnique(at / 7, r.interval, 0, at / 7);
    if at < 7 {
      assert at % 7 == at;
      if FindDay(mask, at).Some? {
        assert Has(mask, FindDay(mask, at).value);
      }
    }
  }

  lemma LeastIsLate(mask: bv8)
    requires FindDay(mask, 0).Some?
    ensures FindDay(mask, 0).value >= 2 <==> !Has(mask, 0) && !Has(mask, 1)
  {
    hide Has;
  }

  /** The second turn overflows exactly where a caller can see it before the call. */
  lemma OverflowIff(start: int, r: Repeat, from: int)
    requires ValidRepeat(r) && r.freq.Weekly? && 0 <= start < from <= MAX_DAY
    requires FindDay(DayMask(start, r), 0).Some?
    ensures var at: nat := from - start + Weekday(start);
            JumpOverflows(start, r, from) <==>
            && Missed(start, r, at) && NextWeek(r, at) * 7 <= U64_MAX
            && NextWeek(r, at) * 7 + FindDay(DayMask(start, r), 0).value > U64_MAX
  {
    hide Has, DayMask, FindDay, Missed, NextWeek, LastOfWeek;
    var at: nat := from - start + Weekday(start);
    LastWeekFits();
    JumpsToLast(r, at);
    LeastIsLate(DayMask(start, r));
    FindBound(DayMask(start, r));
    if r.interval == LAST_WEEK { MissedIsLate(start, r, from); }
  }

  lemma FindBound(mask: bv8)
    ensures FindDay(mask, 0).Some? ==> FindDay(mask, 0).value < 7
  {
    hide Has;
  }

  /** Three turns are allowed, two always suffice. */
  method NextWeekly(start: int, r: Repeat, from: int) returns (res: Ran<Option<int>>)
    requires ValidRepeat(r) && r.freq.Weekly? && 0 <= start < from <= MAX_DAY
    ensures res.Panicked? <==> JumpOverflows(start, r, from)
    ensures res.Returned? ==> IsNextHit(start, r, from, res.value)
  {
    hide IsNextHit, NoHits, OnSeriesMonday, JumpOverflows, Missed, FoundAt, NextWeek, FindDay, DayMask;
    var at: nat := from - start + Weekday(start);
    ghost var first := at;
    MaskNotEmpty(start, r);
    OverflowIff(start, r, from);
    if !Missed(start, r, first) { FirstTurnFits(start, r, first); }
    NoHitsInNothing(start, r, from);
    var turn := 0;
    while turn < 3
      invariant first <= at && NoHits(start, r, from, start - Weekday(start) + at)
      invariant turn <= 1 && (turn == 0 ==> at == first)
      invariant turn == 1 ==> Missed(start, r, first) && at == NextWeek(r, first) * 7 <= U64_MAX && OnSeriesMonday(r, at)
      decreases 3 - turn
    {
      if turn == 1 { MondayFinds(start, r, at); }
      var t := TakeTurn(start, r, from, at);
      if t.Overflow? { return Panicked; }
      if t.Done? { return Returned(t.res); }
      at := t.at;
      turn := turn + 1;
    }
    assert false;
    res := Panicked;
  }

  /** A rule for Wednesdays with that interval: from the day after its start on, every jump overflows. */
  lemma WednesdaysOverflow(start: int, from: int)
    requires Weekday(start) == 2 && from > start
    ensures var r := Repeat(Weekly, LAST_WEEK, [2], Open);
            ValidRepeat(r) && JumpOverflows(start, r, from)
  {
    var r := Repeat(Weekly, LAST_WEEK, [2], Open);
    DayMaskHas(start, r, 0);
    DayMaskHas(start, r, 1);
    var l := LastFrom(DayMask(start, r), 2, 6);
    if l != 2 { DayMaskHas(start, r, l); }
  }

  lemma NoHitsInNothing(start: int, r: Repeat, from: int)
    requires 1 <= r.interval
    ensures NoHits(start, r, from, from)
  {
  }

  lemma NoEarlierDay(start: int, r: Repeat, at: nat, dow: nat)
    requires ValidRepeat(r) && r.freq.Weekly? && Weekday(start) < at && at % 7 <= dow < 7
    requires forall o: nat :: at % 7 <= o < dow ==> !Has(DayMask(start, r), o)
    ensures NoHits(start, r, start - Weekday(start) + at, start - Weekday(start) + at / 7 * 7 + dow)
  {
    forall d | start - Weekday(start) + at <= d < start - Weekday(start) + at / 7 * 7 + dow
      ensures !Hit(start, r, d)
    {
      var x := d - start + Weekday(start);
      WeeklyHitAt(start, r, x);
      DivUnique(x, 7, at / 7, x - at / 7 * 7);
    }
  }

  // ------------------------------------------------------------------ monthly

  /** A series month without the day has no hit before the next series month. */
  lemma MonthWithoutDay(start: int, r: Repeat, from: int, k: nat)
    requires ValidRepeat(r) && r.freq.Monthly? && k % r.interval == 0 && start < from
    requires NoHits(start, r, from, MonthStart(MonthOf(start) + k))
    requires DateIn(MonthOf(start) + k, DayOfMonth(start)).None?
    ensures NoHits(start, r, from, MonthStart(MonthOf(start) + k + r.interval))
  {
    hide MonthOf, DayOfMonth, DateIn, Hit, MonthStart;
    var first := MonthOf(start);
    forall d | from <= d < MonthStart(first + k + r.interval)
      ensures !Hit(start, r, d)
    {
      if MonthStart(first + k) <= d {
        MonthOfBounds(d, first + k, first + k + r.interval);
        SeriesMonth(start, r, k, d);
      }
    }
  }

  /** The month the search starts at, before the arithmetic is checked. */
  function FirstOffset(start: int, r: Repeat, from: int): (k: int)
    requires 1 <= r.interval && MonthOf(start) <= MonthOf(from)
  {
    var months := MonthOf(from) - MonthOf(start);
    var c := DivCeil(months, r.interval) * r.interval;
    if c == months && DayOfMonth(from) > DayOfMonth(start) then c + r.interval else c
  }

  lemma FirstOffsetFits(start: int, r: Repeat, from: int)
    requires 1 <= r.interval && MonthOf(start) <= MonthOf(from)
    ensures var k := FirstOffset(start, r, from);
            && k % r.interval == 0
            && MonthOf(from) <= MonthOf(start) + k
            && (MonthOf(from) == MonthOf(start) + k ==> DayOfMonth(from) <= DayOfMonth(start))
            && (forall x: int :: MonthOf(from) - MonthOf(start) <= x < k && x % r.interval == 0 ==>
                  x == MonthOf(from) - MonthOf(start) && DayOfMonth(from) > DayOfMonth(start))
  {
    hide MonthOf, DayOfMonth, DivCeil;
    var months := MonthOf(from) - MonthOf(start);
    var c := DivCeil(months, r.interval) * r.interval;
    CeilMultiple(months, r.interval);
    DivShift(c, r.interval, 1);
    forall x: int | months <= x < c + r.interval && x % r.interval == 0
      ensures x == c
    {
      SameMultiple(c, x, r.interval);
    }
  }

  /** No hit from `from` up to the chosen month. */
  lemma FirstMonth(start: int, r: Repeat, from: int, k: nat)
    requires ValidRepeat(r) && r.freq.Monthly? && start < from && MonthOf(start) <= MonthOf(from)
    requires k == FirstOffset(start, r, from)
    ensures k % r.interval == 0 && MonthOf(from) <= MonthOf(start) + k
    ensures NoHits(start, r, from, MonthStart(MonthOf(start) + k))
  {
    hide MonthOf, DayOfMonth, MonthStart, FirstOffset;
    FirstOffsetFits(start, r, from);
    var first := MonthOf(start);
    forall d | from <= d < MonthStart(first + k)
      ensures !Hit(start, r, d)
    {
      MonthOfMonotone(from, d);
      MonthOfBounds(d, MonthOf(d), first + k);
      if Hit(start, r, d) {
        LaterDay(from, d);
      }
    }
  }

  /** The chosen month's day is not before `from`. */
  lemma FirstMonthDay(start: int, r: Repeat, from: int, k: nat)
    requires 1 <= r.interval && MonthOf(start) <= MonthOf(from) && k == FirstOffset(start, r, from)
    ensures forall d :: DateIn(MonthOf(start) + k, DayOfMonth(start)) == Some(d) ==> from <= d
  {
    hide MonthOf, DayOfMonth, MonthStart, DateIn, FirstOffset;
    FirstOffsetFits(start, r, from);
    forall d | DateIn(MonthOf(start) + k, DayOfMonth(start)) == Some(d)
      ensures from <= d
    {
      DateInRoundTrip(MonthOf(start) + k, DayOfMonth(start), d);
      if d < from {
        MonthOfMonotone(d, from);
        LaterDay(d, from);
      }
    }
  }

  /** Within one month a later date has a later day. */
  lemma LaterDay(a: int, b: int)
    requires a <= b && MonthOf(a) == MonthOf(b)
    ensures DayOfMonth(a) + (b - a) == DayOfMonth(b)
  {
    hide MonthOf, MonthStart;
  }

  /** The month at a whole number of periods from the start has the start's day. */
  lemma PeriodHasDay(start: int, interval: nat, j: nat)
    requires 1 <= interval
    ensures DateIn(MonthOf(start) + j * Period(interval) * interval, DayOfMonth(start)).Some?
  {
    hide MonthOf, MonthStart, Period, MonthLen;
    var c := PeriodWraps(interval);
    assert j * Period(interval) * interval == CYCLE_MONTHS * (j * c);
    MonthCycle(MonthOf(start), j * c);
  }

  /** 4800 steps of a stride cannot all miss the day. */
  lemma CycleHasDay(start: int, interval: nat, k: nat) returns (t: nat)
    requires 1 <= interval && k % interval == 0
    ensures t < CYCLE_MONTHS && DateIn(MonthOf(start) + (k + t * interval), DayOfMonth(start)).Some?
  {
    hide MonthOf, DayOfMonth, DateIn, Period, DivCeil;
    var p := Period(interval);
    PeriodBound(interval);
    var j := DivCeil(k / interval, p);
    CeilMultiple(k / interval, p);
    t := j * p - k / interval;
    DivMod(k, interval);
    assert k + t * interval == j * p * interval by {
      assert t * interval == j * p * interval - (k / interval) * interval;
    }
    PeriodHasDay(start, interval, j);
  }

  lemma PeriodBound(step: nat)
    ensures 1 <= Period(step) <= CYCLE_MONTHS
  {
    PeriodPositive(step);
    var g := Gcd(step, CYCLE_MONTHS);
    DivMod(CYCLE_MONTHS, g);
    MulAtLeastOne(Period(step), g);
  }

  lemma MulAtLeastOne(p: nat, g: nat)
    requires 1 <= g
    ensures p * g >= p
  {
  }

  /** A month from year 10000 on starts past the last wire date. */
  lemma PastTheYears(n: int)
    requires 120000 <= n
    ensures LAST_DAY < MonthStart(n)
  {
    hide MonthStart;
    LastMonth();
    MonthStartMonotone(120000, n);
  }

  /** The day of a series month is the next hit. */
  lemma FoundMonth(start: int, r: Repeat, from: int, k: nat, d: int)
    requires ValidRepeat(r) && r.freq.Monthly? && k % r.interval == 0 && 0 <= start < from <= d
    requires NoHits(start, r, from, MonthStart(MonthOf(start) + k)) && MonthOf(start) + k < 120000
    requires DateIn(MonthOf(start) + k, DayOfMonth(start)) == Some(d)
    ensures IsNextHit(start, r, from, Some(d))
  {
    hide MonthOf, DayOfMonth, DateIn, MonthStart, Hit;
    var n := MonthOf(start) + k;
    DateInRoundTrip(n, DayOfMonth(start), d);
    SeriesMonth(start, r, k, d);
    StartMonthNonNegative(start);
    WireYears(d);
    forall x | from <= x < d
      ensures !Hit(start, r, x)
    {
      if MonthStart(n) <= x {
        MonthOfMonotone(x, d);
        MonthOfBounds(x, n, MonthOf(x) + 1);
        SeriesMonth(start, r, k, x);
      }
    }
  }

  lemma LaterMonth(from: int, n: int, day: int)
    requires MonthOf(from) < n
    ensures forall d :: DateIn(n, day) == Some(d) ==> from <= d
  {
    hide MonthOf, MonthStart;
    MonthStartMonotone(MonthOf(from) + 1, n);
  }

  /** The bounded search over series months; 4800 turns always suffice. */
  method SearchMonth(start: int, r: Repeat, from: int, first: nat) returns (res: Option<int>)
    requires ValidRepeat(r) && r.freq.Monthly? && 0 <= start < from && first <= U64_MAX
    requires first % r.interval == 0 && MonthOf(from) <= MonthOf(start) + first
    requires NoHits(start, r, from, MonthStart(MonthOf(start) + first))
    requires forall d :: DateIn(MonthOf(start) + first, DayOfMonth(start)) == Some(d) ==> from <= d
    ensures IsNextHit(start, r, from, res)
  {
    hide MonthOf, DayOfMonth, DateIn, MonthStart, Hit;
    var m0, day, k := MonthOf(start), DayOfMonth(start), first;
    StartMonthNonNegative(start);
    var turn := 0;
    while turn < CYCLE_MONTHS
      invariant 0 <= turn <= CYCLE_MONTHS && k == first + turn * r.interval <= U64_MAX
      invariant MonthOf(from) <= m0 + k && k % r.interval == 0
      invariant NoHits(start, r, from, MonthStart(m0 + k))
      invariant forall d :: DateIn(m0 + k, day) == Some(d) ==> from <= d
      invariant forall t: nat :: t < turn ==> DateIn(m0 + (first + t * r.interval), day).None?
    {
      if k > I64_MAX || m0 + k > I64_MAX || (m0 + k) / 12 > I32_MAX || (m0 + k) / 12 > 9999 {
        PastTheYears(m0 + k);
        return None;
      }
      var d := DateIn(m0 + k, day);
      if d.Some? {
        FoundMonth(start, r, from, k, d.value);
        return d;
      }
      MonthWithoutDay(start, r, from, k);
      LaterMonth(from, m0 + (k + r.interval), day);
      DivShift(k, r.interval, 1);
      var next := CheckedAdd(k, r.interval);
      if next.None? {
        PastTheYears(m0 + k + r.interval);
        return None;
      }
      assert first + (turn + 1) * r.interval == k + r.interval;
      k := next.value;
      turn := turn + 1;
    }
    var t := CycleHasDay(start, r.interval, first);
    assert false;
    res := None;
  }

  method NextMonthly(start: int, r: Repeat, from: int) returns (res: Option<int>)
    requires ValidRepeat(r) && r.freq.Monthly? && 0 <= start < from <= MAX_DAY
    ensures IsNextHit(start, r, from, res)
  {
    hide MonthOf, DayOfMonth, DateIn, MonthStart, Hit, DivCeil;
    var m0 := MonthOf(start);
    StartMonthNonNegative(start);
    MonthOfMonotone(start, from);
    var months: nat := MonthOf(from) - m0;
    ghost var first := FirstOffset(start, r, from);
    FirstOffsetFits(start, r, from);
    FirstMonth(start, r, from, first);
    FirstMonthDay(start, r, from, first);
    var k := CheckedMul(DivCeil(months, r.interval), r.interval);
    if k.None? {
      PastTheYears(m0 + first);
      return None;
    }
    if k.value == months && DayOfMonth(from) > DayOfMonth(start) {
      k := CheckedAdd(k.value, r.interval);
      if k.None? {
        PastTheYears(m0 + first);
        return None;
      }
    }
    res := SearchMonth(start, r, from, k.value);
  }

  /** The first date at or after `from` the rule's pattern hits, or the panic of the weekly sum. */
  method NextHit(start: int, r: Repeat, from: int) returns (res: Ran<Option<int>>)
    requires ValidRepeat(r) && 0 <= start <= LAST_DAY && from <= MAX_DAY
    ensures res.Panicked? <==> JumpOverflows(start, r, from)
    ensures res.Returned? ==> IsNextHit(start, r, from, res.value)
  {
    hide Hit;
    if from <= start {
      StartIsFirst(start, r);
      return Returned(Some(start));
    }
    match r.freq
    case Daily =>
      var d := NextDaily(start, r, from);
      res := Returned(d);
    case Weekly => res := NextWeekly(start, r, from);
    case Monthly =>
      var d := NextMonthly(start, r, from);
      res := Returned(d);
  }

  lemma StartIsFirst(start: int, r: Repeat)
    requires 1 <= r.interval
    ensures Hit(start, r, start) && forall d :: d < start ==> !Hit(start, r, d)
  {
  }
}
