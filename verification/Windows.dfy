/**
 A task's window in time and the occurrences of a series. Instants are
 seconds from 0000-01-01T00:00 UTC.
 */
module Windows {
  import opened Prelude
  import opened Civil
  import opened Series
  import opened SeriesRank

  const DAY: int := 86400
  /** -262143-01-01, the first date the date type can hold. */
  const MIN_DAY: int := -95745764
  /** The last whole second the date-time type can hold. */
  const MAX_INSTANT: int := (MAX_DAY + 1) * DAY - 1

  datatype When = AllDay(start: int, end: int) | Timed(begin: int, finish: int)

  /** What the parser guarantees of every window. */
  predicate ValidWhen(w: When) {
    match w
    case AllDay(s, e) => 0 <= s <= e <= LAST_DAY
    case Timed(s, e) => 0 <= s < e < (LAST_DAY + 1) * DAY
  }

  function StartDate(w: When): int {
    match w
    case AllDay(s, _) => s
    case Timed(s, _) => s / DAY
  }

  function Begins(w: When): int {
    match w
    case AllDay(s, _) => s * DAY
    case Timed(s, _) => s
  }

  /**
   Midnight of a day; past the last date the clock type's maximum, which on
   whole seconds bounds like the midnight after it.
   */
  function Midnight(d: int): int {
    if d <= MAX_DAY then d * DAY else MAX_INSTANT + 1
  }

  /** Exclusive end; an all-day window ends with its last day. */
  function Ends(w: When): int {
    match w
    case AllDay(_, e) => Midnight(e + 1)
    case Timed(_, e) => e
  }

  function Shifted(w: When, days: int): (r: Option<When>) {
    match w
    case AllDay(s, e) =>
      if MIN_DAY <= s + days && e + days <= MAX_DAY then Some(AllDay(s + days, e + days)) else None
    case Timed(s, e) =>
      if MIN_DAY * DAY <= s + days * DAY && e + days * DAY <= MAX_INSTANT
      then Some(Timed(s + days * DAY, e + days * DAY)) else None
  }

  predicate Overlaps(w: When, from: int, to: int) {
    Begins(w) < Midnight(to + 1) && Ends(w) > from * DAY
  }

  // ---------------------------------------------------------- what windows mean

  /** `v` is `w`, `days` days later at both ends. */
  predicate IsLater(w: When, v: When, days: int) {
    match w
    case AllDay(s, e) => v.AllDay? && v.start == s + days && v.end == e + days
    case Timed(s, e) => v.Timed? && v.begin == s + days * DAY && v.finish == e + days * DAY
  }

  /** The window lies inside what the date types can hold. */
  predicate InCalendar(w: When) {
    match w
    case AllDay(s, e) => MIN_DAY <= s && e <= MAX_DAY
    case Timed(s, e) => MIN_DAY * DAY <= s && e <= MAX_INSTANT
  }

  /** The instant lies in the window: on one of its days, or from its begin to before its end. */
  predicate Covers(w: When, x: int) {
    match w
    case AllDay(s, e) => s <= x / DAY <= e
    case Timed(s, e) => s <= x < e
  }

  /** A shift moves both ends by whole days, and fails exactly where they leave the calendar. */
  lemma ShiftedIs(w: When, days: int, v: When)
    ensures Shifted(w, days) == Some(v) <==> IsLater(w, v, days) && InCalendar(v)
  {
  }

  /** Begin and end bound exactly the instants of the window, and the start date is the day of the begin. */
  lemma BoundsCover(w: When, x: int)
    requires InCalendar(w)
    ensures Begins(w) <= x < Ends(w) <==> Covers(w, x)
    ensures StartDate(w) == Begins(w) / DAY
  {
  }

  /** A window overlaps a view exactly if one of its instants falls on one of the view's days. */
  lemma OverlapsIs(w: When, from: int, to: int)
    requires InCalendar(w) && Begins(w) < Ends(w) && from <= to <= MAX_DAY
    ensures Overlaps(w, from, to) <==> exists x :: Covers(w, x) && from <= x / DAY <= to
  {
    var x := if Begins(w) < from * DAY then from * DAY else Begins(w);
    BoundsCover(w, x);
    if Overlaps(w, from, to) {
      assert from <= x / DAY <= to;
    }
    if y :| Covers(w, y) && from <= y / DAY <= to {
      BoundsCover(w, y);
    }
  }

  // -------------------------------------------------------------- occurrences

  predicate WithinEnd(r: Repeat, date: int, pos: nat) {
    match r.end
    case Open => true
    case Until(u) => date <= u
    case Count(c) => pos < c
  }

  /** `Position(..).Some?` without counting. */
  predicate PositionHit(start: int, r: Repeat, date: int)
    requires ValidRepeat(r)
  {
    match r.freq
    case Monthly =>
      DayOfMonth(date) == DayOfMonth(start) &&
      MonthOf(date) - MonthOf(start) >= 0 && (MonthOf(date) - MonthOf(start)) % r.interval == 0
    case _ => Position(start, r, date).Some?
  }

  predicate IsOccurrence(w: When, r: Repeat, date: int)
    requires ValidRepeat(r)
  {
    var start := StartDate(w);
    if r.end.Count? then
      var p := Position(start, r, date);
      p.Some? && WithinEnd(r, date, p.value)
    else
      date >= start && PositionHit(start, r, date) && WithinEnd(r, date, 0)
  }

  /** The meaning: a hit of the plain rule that the end clause still admits. */
  predicate Occurs(start: int, r: Repeat, date: int)
    requires 1 <= r.interval
  {
    Hit(start, r, date) && WithinEnd(r, date, Rank(start, r, date))
  }

  /** An occurrence is a hit of the plain rule on or before `until`, or among the first `count` hits. */
  lemma OccursIs(start: int, r: Repeat, date: int)
    requires 1 <= r.interval
    ensures Occurs(start, r, date) <==>
            && Hit(start, r, date)
            && (r.end.Until? ==> date <= r.end.last)
            && (r.end.Count? ==> Rank(start, r, date) < r.end.n)
  {
    hide Hit, Rank;
  }

  lemma PositionHitIsHit(start: int, r: Repeat, date: int)
    requires ValidRepeat(r) && 0 <= start <= date
    ensures PositionHit(start, r, date) <==> Hit(start, r, date)
  {
    hide MonthOf, DayOfMonth, Position, Rank;
    if r.freq.Monthly? {
      MonthOfMonotone(start, date);
      if date == start {
        assert (MonthOf(date) - MonthOf(start)) % r.interval == 0;
      }
    } else {
      PositionIsRank(start, r, date);
    }
  }

  /** The arithmetic test, its uncounted shortcut included, decides the plain rule. */
  lemma IsOccurrenceIsExact(w: When, r: Repeat, date: int)
    requires ValidRepeat(r) && ValidWhen(w)
    ensures IsOccurrence(w, r, date) <==> Occurs(StartDate(w), r, date)
  {
    hide Position, Rank, Hit, PositionHit;
    var start := StartDate(w);
    PositionIsRank(start, r, date);
    if date >= start {
      PositionHitIsHit(start, r, date);
    } else {
      assert !Hit(start, r, date) by { BeforeStart(start, r, date); }
    }
  }

  lemma BeforeStart(start: int, r: Repeat, date: int)
    requires 1 <= r.interval && date < start
    ensures !Hit(start, r, date)
  {
  }

  lemma {:induction false} RankSpan(start: int, r: Repeat, a: int, b: int)
    requires 1 <= r.interval && a <= b
    ensures Rank(start, r, b) - Rank(start, r, a) <= b - a
    decreases b - a
  {
    hide Hit;
    if a < b {
      RankSpan(start, r, a, b - 1);
    }
  }

  lemma {:induction false} RankMonotone(start: int, r: Repeat, a: int, b: int)
    requires 1 <= r.interval && a <= b
    ensures Rank(start, r, a) <= Rank(start, r, b)
    decreases b - a
  {
    if a < b {
      RankMonotone(start, r, a, b - 1);
    }
  }

  /** Once a hit lies past the end, so does every later one. */
  lemma EndIsFinal(start: int, r: Repeat, a: int, b: int)
    requires 1 <= r.interval && a <= b
    requires !WithinEnd(r, a, Rank(start, r, a))
    ensures !WithinEnd(r, b, Rank(start, r, b))
  {
    RankMonotone(start, r, a, b);
  }
}
