/**
 A recurring series: the plain rule that says which dates it hits, and the
 closed-form `Position` the board computes instead of walking. `SeriesRank`
 proves that `Position` is the rank function of the plain rule.
 */
module Series {
  import opened Prelude
  import opened Arith
  import opened Civil
  import opened Mask

  datatype Freq = Daily | Weekly | Monthly

  datatype RepeatEnd = Open | Until(last: int) | Count(n: nat)

  /** `byday` holds days from Monday; empty means the start's own weekday. */
  datatype Repeat = Repeat(freq: Freq, interval: nat, byday: seq<nat>, end: RepeatEnd)

  /** What the parser guarantees of every rule. */
  predicate ValidRepeat(r: Repeat) {
    && 1 <= r.interval <= U64_MAX
    && (forall i :: 0 <= i < |r.byday| ==> r.byday[i] < 7)
    && (forall i, j :: 0 <= i < j < |r.byday| ==> r.byday[i] != r.byday[j])
    && (r.byday != [] ==> r.freq.Weekly?)
    && (r.end.Count? ==> 1 <= r.end.n <= U64_MAX)
    && (r.end.Until? ==> 0 <= r.end.last <= LAST_DAY)
  }

  /** Weeks run from Monday. */
  function WeekOf(d: int): int {
    (d + 5) / 7
  }

  // ------------------------------------------------------------ the plain rule

  predicate OnWeekday(start: int, r: Repeat, date: int) {
    if r.byday == [] then Weekday(date) == Weekday(start) else Weekday(date) in r.byday
  }

  /** The dates the pattern hits; the start always counts (RFC 5545 DTSTART). */
  predicate Hit(start: int, r: Repeat, date: int)
    requires 1 <= r.interval
  {
    date == start ||
    (date > start &&
     match r.freq
     case Daily => (date - start) % r.interval == 0
     case Weekly => OnWeekday(start, r, date) && (WeekOf(date) - WeekOf(start)) % r.interval == 0
     case Monthly => DayOfMonth(date) == DayOfMonth(start) && (MonthOf(date) - MonthOf(start)) % r.interval == 0)
  }

  /** How many hits lie before `date`. */
  function Rank(start: int, r: Repeat, date: int): nat
    requires 1 <= r.interval
    decreases if date <= start then 0 else date - start
  {
    if date <= start then 0
    else Rank(start, r, date - 1) + (if Hit(start, r, date - 1) then 1 else 0)
  }

  // ------------------------------------------------------- the closed form

  function DayMask(start: int, r: Repeat): bv8
    requires ValidRepeat(r)
  {
    if r.byday == [] then Bit(Weekday(start)) else MaskOf(r.byday)
  }

  function Gcd(a: nat, b: nat): (g: nat)
    ensures a + b > 0 ==> g > 0
    decreases b
  {
    if b == 0 then a else Gcd(b, a % b)
  }

  /** Steps after which a stride of `step` months is back at its cycle month. */
  function Period(step: nat): nat {
    CYCLE_MONTHS / Gcd(step, CYCLE_MONTHS)
  }

  /** Whether month `a` of the cycle, read in the years from 2000, has the day. */
  predicate CycleMonthHas(a: int, day: int) {
    DateIn(12 * (2000 + a / 12) + a % 12, day).Some?
  }

  /** How many of the first `k` steps from cycle month `m0` have the day. */
  function CycleCount(m0: nat, step: nat, day: int, k: nat): nat {
    if k == 0 then 0
    else CycleCount(m0, step, day, k - 1)
         + (if CycleMonthHas((m0 + (k - 1) * step) % CYCLE_MONTHS, day) then 1 else 0)
  }

  /** The prefix table: entry `i` counts the first `i` steps of one period. */
  function PrefixTable(m0: nat, step: nat, day: int): seq<nat> {
    seq(Period(step) + 1, i requires 0 <= i => CycleCount(m0, step, day, i))
  }

  /** Whole periods by the table's last entry, the rest by its own. */
  function TableCount(prefix: seq<nat>, k: nat): nat
    requires |prefix| > 1
  {
    var period := |prefix| - 1;
    MulNonNegative(k / period, prefix[period]);
    (k / period) * prefix[period] + prefix[k % period]
  }

  function MonthsWithDay(start: int, interval: nat, k: nat): nat {
    var day := DayOfMonth(start);
    if day <= 28 then k
    else
      var m0 := (if MonthOf(start) >= 0 then MonthOf(start) else 0) % CYCLE_MONTHS;
      var step := interval % CYCLE_MONTHS;
      PeriodPositive(step);
      TableCount(PrefixTable(m0, step, day), k)
  }

  /** The position of masked weekday `dof` in the `weeks`-th week. */
  function WeeklyPosition(mask: bv8, so: nat, dof: nat, weeks: nat, interval: nat): (p: Option<nat>)
    requires so < 7 && dof < 7 && 1 <= interval
  {
    if weeks % interval != 0 then None
    else
      var q := weeks / interval;
      if q == 0 then Some(1 + MaskBetween(mask, so + 1, dof))
      else
        MulNonNegative(q - 1, CountOnes(mask));
        Some(1 + MaskBetween(mask, so + 1, 7) + (q - 1) * CountOnes(mask) + MaskBetween(mask, 0, dof))
  }

  function WeeklyAt(start: int, r: Repeat, date: int): (p: Option<nat>)
    requires ValidRepeat(r) && start < date
  {
    var mask, so, dof := DayMask(start, r), Weekday(start), Weekday(date);
    WeeksNonNegative(start, date);
    if !Has(mask, dof) then None
    else WeeklyPosition(mask, so, dof, (date - start + so - dof) / 7, r.interval)
  }

  function MonthlyAt(start: int, r: Repeat, date: int): (p: Option<nat>)
    requires ValidRepeat(r) && start < date
  {
    if DayOfMonth(date) != DayOfMonth(start) then None
    else
      var months := MonthOf(date) - MonthOf(start);
      if months < 0 || months % r.interval != 0 then None
      else Some(MonthsWithDay(start, r.interval, months / r.interval))
  }

  /** The 0-based position of `date` when the pattern hits it. */
  function Position(start: int, r: Repeat, date: int): (p: Option<nat>)
    requires ValidRepeat(r)
  {
    if date < start then None
    else if date == start then Some(0)
    else
      match r.freq
      case Daily => if (date - start) % r.interval == 0 then Some((date - start) / r.interval) else None
      case Weekly => WeeklyAt(start, r, date)
      case Monthly => MonthlyAt(start, r, date)
  }

  /** A later date lies in the same week or a later one. */
  lemma WeeksNonNegative(start: int, date: int)
    requires start <= date
    ensures (date - start + Weekday(start) - Weekday(date)) / 7 == WeekOf(date) - WeekOf(start) >= 0
  {
  }

  // ----------------------------------------------------------- gcd and period

  ghost predicate Divides(g: int, x: int) {
    exists k: int :: g * k == x
  }

  lemma DividesCombination(g: int, b: int, q: int, rest: int)
    requires Divides(g, b) && Divides(g, rest)
    ensures Divides(g, b * q + rest)
  {
    var k :| g * k == b;
    var l :| g * l == rest;
    assert g * (k * q + l) == (g * k) * q + g * l;
  }

  lemma {:induction false} GcdDivides(a: nat, b: nat)
    requires a + b > 0
    ensures Divides(Gcd(a, b), a) && Divides(Gcd(a, b), b)
    decreases b
  {
    var g := Gcd(a, b);
    if b == 0 {
      assert g * 1 == a && g * 0 == b;
    } else {
      GcdDivides(b, a % b);
      DividesCombination(g, b, a / b, a % b);
    }
  }

  /** Every common divisor divides it: none is greater. */
  lemma {:induction false} GcdIsGreatest(a: nat, b: nat, d: int)
    requires a + b > 0 && d > 0 && Divides(d, a) && Divides(d, b)
    ensures Divides(d, Gcd(a, b)) && d <= Gcd(a, b)
    decreases b
  {
    if b > 0 {
      DividesCombination(d, b, -(a / b), a);
      assert b * -(a / b) + a == a % b;
      GcdIsGreatest(b, a % b, d);
    }
    var k :| d * k == Gcd(a, b);
    MulSign(d, k);
    MulAtLeast(d, k);
  }

  /** One period of steps is a whole number of 400-year cycles. */
  lemma PeriodWraps(step: nat) returns (c: nat)
    ensures Period(step) > 0 && Period(step) * step == CYCLE_MONTHS * c
  {
    hide Gcd;
    GcdDivides(step, CYCLE_MONTHS);
    var g := Gcd(step, CYCLE_MONTHS);
    var k :| g * k == CYCLE_MONTHS;
    var l :| g * l == step;
    MulSign(g, k);
    MulSign(g, l);
    DivUnique(CYCLE_MONTHS, g, k, 0);
    c := l;
    assert k * (g * l) == (g * k) * l;
  }

  lemma PeriodPositive(step: nat)
    ensures Period(step) > 0
  {
    var _ := PeriodWraps(step);
  }
}
