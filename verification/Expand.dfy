/**
 Expanding a timed task into the occurrences a view shows. The walk jumps
 from hit to hit, carries the position along instead of recomputing it, and
 stops at a cap; the contract says the result is nevertheless the plain one.
 */
module Expand {
  import opened Prelude
  import opened Arith
  import opened Civil
  import opened Series
  import opened SeriesRank
  import opened NextHit
  import opened Windows
  import opened Sorting

  const EXPAND_MAX: nat := 1000
  const EXPAND_REACH_DAYS: int := 366

  datatype Occurrence = Occurrence(date: int, window: When, moved: bool)

  /** A recurring task as the expansion sees it. */
  datatype Recurring = Recurring(when: When, repeat: Repeat, skip: set<int>, moved: map<int, When>)

  predicate ValidRecurring(t: Recurring) {
    ValidWhen(t.when) && ValidRepeat(t.repeat) && forall k <- t.moved :: ValidWhen(t.moved[k])
  }

  function SeriesOf(when: When, repeat: Repeat, skip: seq<int>, moved: map<int, When>): Recurring {
    Recurring(when, repeat, (set d | d in skip), moved)
  }

  /** The window the occurrence of `d` occupies. */
  function WindowOf(t: Recurring, d: int): (w: Option<When>) {
    if d in t.moved then Some(t.moved[d]) else Shifted(t.when, d - StartDate(t.when))
  }

  /** What a view of `[from, to]` shows for the original date `d`. */
  function Place(t: Recurring, from: int, to: int, d: int): (o: Option<Occurrence>) {
    if d in t.skip then None
    else
      var w := WindowOf(t, d);
      if w.Some? && Overlaps(w.value, from, to) then Some(Occurrence(d, w.value, d in t.moved)) else None
  }

  /** An occurrence of the series that the view shows. */
  predicate Shows(t: Recurring, from: int, to: int, d: int)
    requires ValidRecurring(t)
  {
    Occurs(StartDate(t.when), t.repeat, d) && Place(t, from, to, d).Some?
  }

  /**
   What a view must show: an occurrence that is not skipped, in its moved window
   if it was moved and else in the series' own window that many days later.
   */
  ghost predicate Belongs(t: Recurring, from: int, to: int, o: Occurrence)
    requires ValidRecurring(t)
  {
    && Occurs(StartDate(t.when), t.repeat, o.date) && o.date !in t.skip && Overlaps(o.window, from, to)
    && if o.date in t.moved then o.moved && o.window == t.moved[o.date]
       else !o.moved && IsLater(t.when, o.window, o.date - StartDate(t.when)) && InCalendar(o.window)
  }

  /** The occurrence placed for a date is the one that belongs there. */
  lemma PlacedBelongs(t: Recurring, from: int, to: int, o: Occurrence)
    requires ValidRecurring(t)
    ensures Shows(t, from, to, o.date) && Place(t, from, to, o.date) == Some(o) <==> Belongs(t, from, to, o)
  {
    hide Occurs, Shifted, IsLater, InCalendar;
    ShiftedIs(t.when, o.date - StartDate(t.when), o.window);
  }

  /** Days an occurrence may reach back before the view, plus one. */
  function SpanDays(w: When): int {
    (Ends(w) - Begins(w)) / DAY + 1
  }

  /** Where the walk starts. */
  function WalkFrom(w: When, from: int): int {
    var reach := if SpanDays(w) < EXPAND_REACH_DAYS then SpanDays(w) else EXPAND_REACH_DAYS;
    var lo := if MIN_DAY <= from - reach then from - reach else StartDate(w);
    if lo < StartDate(w) then StartDate(w) else lo
  }

  predicate ShowsBefore(a: Occurrence, b: Occurrence) {
    Begins(a.window) < Begins(b.window) || (Begins(a.window) == Begins(b.window) && a.date <= b.date)
  }

  lemma ShowsBeforeIsTotal()
    ensures TotalPreorder(ShowsBefore)
  {
  }

  // ---------------------------------------------------------- the walked part

  /** `out` is what the hits of `[lo, cur)` show, by date. */
  ghost predicate Walked(t: Recurring, from: int, to: int, lo: int, cur: int, out: seq<Occurrence>)
    requires ValidRecurring(t)
  {
    && (forall i :: 0 <= i < |out| ==>
          lo <= out[i].date < cur && Shows(t, from, to, out[i].date) && Place(t, from, to, out[i].date) == Some(out[i]))
    && (forall i, j :: 0 <= i < j < |out| ==> out[i].date < out[j].date)
    && (forall d :: lo <= d < cur && Shows(t, from, to, d) ==> Place(t, from, to, d).value in out)
  }

  lemma WalkStep(t: Recurring, from: int, to: int, lo: int, cur: int, d: int, out: seq<Occurrence>)
    requires ValidRecurring(t) && StartDate(t.when) <= lo <= cur <= d
    requires Walked(t, from, to, lo, cur, out) && NoHits(StartDate(t.when), t.repeat, cur, d)
    requires Occurs(StartDate(t.when), t.repeat, d)
    ensures var p := Place(t, from, to, d);
            Walked(t, from, to, lo, d + 1, if p.Some? then out + [p.value] else out)
  {
    hide Hit, Rank, Place;
    var p := Place(t, from, to, d);
    PlaceDate(t, from, to, d);
    var out' := if p.Some? then out + [p.value] else out;
    forall x | lo <= x < d + 1 && Shows(t, from, to, x)
      ensures Place(t, from, to, x).value in out'
    {
      if x == d {
        assert out'[|out|] == p.value;
      }
    }
  }

  lemma PlaceDate(t: Recurring, from: int, to: int, d: int)
    ensures Place(t, from, to, d).Some? ==> Place(t, from, to, d).value.date == d
  {
  }

  /** Nothing shown lies between `cur` and `end`. */
  lemma WalkSkip(t: Recurring, from: int, to: int, lo: int, cur: int, end: int, out: seq<Occurrence>)
    requires ValidRecurring(t) && cur <= end && Walked(t, from, to, lo, cur, out)
    requires forall d :: cur <= d < end ==> !Occurs(StartDate(t.when), t.repeat, d)
    ensures Walked(t, from, to, lo, end, out)
  {
    hide Hit, Rank, Place, Occurs;
  }

  function WalkEnd(r: Repeat, to: int): int {
    if to < Horizon(r) then to else Horizon(r)
  }

  /** Past the first hit the end clause refuses, nothing occurs. */
  lemma NothingAfterEnd(start: int, r: Repeat, cur: int, d: int)
    requires 1 <= r.interval && cur <= d && NoHits(start, r, cur, d)
    requires !WithinEnd(r, d, Rank(start, r, d))
    ensures forall x :: cur <= x ==> !Occurs(start, r, x)
  {
    hide Hit, Rank;
    forall x | cur <= x
      ensures !Occurs(start, r, x)
    {
      if d <= x {
        EndIsFinal(start, r, d, x);
      }
    }
  }

  lemma RankOfNext(start: int, r: Repeat, cur: int, d: int)
    requires 1 <= r.interval && start <= cur <= d && NoHits(start, r, cur, d) && Hit(start, r, d)
    ensures Rank(start, r, d) == Rank(start, r, cur) && Rank(start, r, d + 1) == Rank(start, r, cur) + 1
  {
    hide Hit;
    RankGap(start, r, cur, d);
  }

  /** How many hits lie in `[lo, hi]`. */
  function HitsIn(t: Recurring, lo: int, hi: int): int
    requires ValidRecurring(t)
  {
    Rank(StartDate(t.when), t.repeat, hi + 1) - Rank(StartDate(t.when), t.repeat, lo)
  }

  /** The walk from `lo` asks for a hit past the first week of a rule that overflows there. */
  predicate WalkOverflows(start: int, r: Repeat, lo: int, to: int)
    requires ValidRepeat(r)
  {
    var last := LastOfWeek(start, r);
    Overflows(start, r) && (lo > last || (last <= to && Occurs(start, r, last)))
  }

  lemma LastIsHit(start: int, r: Repeat)
    requires ValidRepeat(r) && r.freq.Weekly?
    ensures start <= LastOfWeek(start, r) <= start + 6 && Hit(start, r, LastOfWeek(start, r))
  {
    hide Hit, DayMask, LastFrom, Weekday;
    var so, l := Weekday(start), LastFrom(DayMask(start, r), Weekday(start), 6);
    if l == so {
      StartIsFirst(start, r);
    } else {
      WeeklyHitAt(start, r, l);
      DivUnique(l, 7, 0, l);
      DivUnique(0, r.interval, 0, 0);
    }
  }

  /** Before its last hit the first week holds at most six. */
  lemma FewBeforeLast(start: int, r: Repeat, lo: int, cur: int)
    requires ValidRepeat(r) && r.freq.Weekly? && start <= lo <= cur <= LastOfWeek(start, r)
    ensures Rank(start, r, cur) - Rank(start, r, lo) <= 6
  {
    hide Hit, Rank, LastOfWeek;
    LastIsHit(start, r);
    RankSpan(start, r, lo, cur);
  }

  /** The next hit up to the last one of the week is there. */
  lemma NextIsByLast(start: int, r: Repeat, cur: int, next: Option<int>)
    requires ValidRepeat(r) && r.freq.Weekly? && 0 <= start <= LAST_DAY && start <= cur <= LastOfWeek(start, r)
    requires IsNextHit(start, r, cur, next)
    ensures next.Some? && next.value <= LastOfWeek(start, r)
  {
    hide Hit, LastOfWeek;
    LastIsHit(start, r);
  }

  /** A walk that ends by itself short of the last hit of the week never asks past it. */
  lemma EndsQuietly(start: int, r: Repeat, lo: int, to: int, cur: int, d: int)
    requires ValidRepeat(r) && start <= lo <= cur <= d && (Overflows(start, r) ==> d <= LastOfWeek(start, r))
    requires to < d || !WithinEnd(r, d, Rank(start, r, d))
    ensures !WalkOverflows(start, r, lo, to)
  {
    hide Hit, Rank, LastOfWeek;
    if to >= d && Overflows(start, r) { EndIsFinal(start, r, d, LastOfWeek(start, r)); }
  }

  /** How a walk that was not cut short by a panic ended. */
  ghost predicate WalkedTo(t: Recurring, from: int, to: int, lo: int, out: seq<Occurrence>, stop: int)
    requires ValidRecurring(t)
  {
    && lo <= stop && Walked(t, from, to, lo, stop, out) && |out| <= EXPAND_MAX
    && (stop <= WalkEnd(t.repeat, to) + 1 || stop == lo)
    && (stop <= WalkEnd(t.repeat, to) ==> HitsIn(t, lo, WalkEnd(t.repeat, to)) > EXPAND_MAX)
  }

  /** What the loop keeps: everything up to `cur` is walked, `next` is what lies ahead, and no jump has overflowed. */
  ghost predicate Walking(t: Recurring, from: int, to: int, lo: int, cur: int, next: Option<int>, pos: Option<nat>, turns: int, out: seq<Occurrence>)
    requires ValidRecurring(t)
  {
    var start, r := StartDate(t.when), t.repeat;
    && lo <= cur <= MAX_DAY + 1 && (cur <= WalkEnd(r, to) + 1 || cur == lo)
    && (if cur <= MAX_DAY then IsNextHit(start, r, cur, next) else next.None?)
    && (Overflows(start, r) ==> cur <= LastOfWeek(start, r))
    && Walked(t, from, to, lo, cur, out)
    && (if pos.None? then cur == lo else pos.value + 1 == Rank(start, r, cur))
    && turns == EXPAND_MAX + |t.skip| + |t.moved| - (Rank(start, r, cur) - Rank(start, r, lo))
    && |out| <= EXPAND_MAX && |out| <= Rank(start, r, cur) - Rank(start, r, lo)
  }

  /** When the loop stops of itself, the walk is done, and no panic was missed. */
  lemma WalkStops(t: Recurring, from: int, to: int, lo: int, cur: int, next: Option<int>, pos: Option<nat>, turns: nat, out: seq<Occurrence>)
    returns (stop: int)
    requires ValidRecurring(t) && StartDate(t.when) <= lo && to <= MAX_DAY
    requires Walking(t, from, to, lo, cur, next, pos, turns, out)
    requires !(next.Some? && next.value <= to && |out| < EXPAND_MAX && turns > 0)
    ensures WalkedTo(t, from, to, lo, out, stop)
    ensures !WalkOverflows(StartDate(t.when), t.repeat, lo, to)
  {
    hide Hit, Rank, Place, Shows, Walked, Occurs, LastOfWeek;
    var start, r := StartDate(t.when), t.repeat;
    if Overflows(start, r) {
      LastIsHit(start, r);
      NextIsByLast(start, r, cur, next);
      FewBeforeLast(start, r, lo, cur);
      EndsQuietly(start, r, lo, to, cur, next.value);
    }
    stop := cur;
    if cur <= WalkEnd(r, to) {
      if next.None? || next.value > to {
        stop := WalkEnd(r, to) + 1;
        NothingLeft(start, r, cur, stop);
        WalkSkip(t, from, to, lo, cur, stop, out);
      } else {
        RankOfNext(start, r, cur, next.value);
        RankMonotone(start, r, next.value + 1, WalkEnd(r, to) + 1);
      }
    }
  }

  /** When the end clause refuses the next hit, the walk is done. */
  lemma WalkRefused(t: Recurring, from: int, to: int, lo: int, cur: int, next: Option<int>, pos: Option<nat>, turns: nat, out: seq<Occurrence>)
    returns (stop: int)
    requires ValidRecurring(t) && StartDate(t.when) <= lo && to <= MAX_DAY
    requires Walking(t, from, to, lo, cur, next, pos, turns, out) && next.Some? && next.value <= to
    requires !WithinEnd(t.repeat, next.value, Rank(StartDate(t.when), t.repeat, next.value))
    ensures WalkedTo(t, from, to, lo, out, stop)
    ensures !WalkOverflows(StartDate(t.when), t.repeat, lo, to)
  {
    hide Hit, Rank, Place, Shows, Walked, Occurs, LastOfWeek;
    var start, r, d := StartDate(t.when), t.repeat, next.value;
    if Overflows(start, r) {
      LastIsHit(start, r);
      NextIsByLast(start, r, cur, next);
    }
    EndsQuietly(start, r, lo, to, cur, d);
    NothingAfterEnd(start, r, cur, d);
    stop := if cur <= WalkEnd(r, to) then WalkEnd(r, to) + 1 else cur;
    WalkSkip(t, from, to, lo, cur, stop, out);
  }

  /** A jump that overflows inside the walk does so right after the last hit of the week. */
  lemma PanicIsSeen(t: Recurring, from: int, to: int, lo: int, cur: int, next: Option<int>, pos: Option<nat>, turns: nat, out: seq<Occurrence>)
    requires ValidRecurring(t) && StartDate(t.when) <= lo
    requires Walking(t, from, to, lo, cur, next, pos, turns, out) && next.Some? && next.value <= to
    requires Occurs(StartDate(t.when), t.repeat, next.value) && JumpOverflows(StartDate(t.when), t.repeat, next.value + 1)
    ensures WalkOverflows(StartDate(t.when), t.repeat, lo, to)
  {
    hide Hit, Rank, Walked, Occurs, LastOfWeek;
    LastIsHit(StartDate(t.when), t.repeat);
    NextIsByLast(StartDate(t.when), t.repeat, cur, next);
  }

  method Walk(t: Recurring, from: int, to: int, lo: int) returns (res: Ran<seq<Occurrence>>, ghost stop: int)
    requires ValidRecurring(t) && StartDate(t.when) <= lo <= MAX_DAY && to <= MAX_DAY
    ensures res.Panicked? <==> WalkOverflows(StartDate(t.when), t.repeat, lo, to)
    ensures res.Returned? ==> WalkedTo(t, from, to, lo, res.value, stop)
  {
    hide Hit, Rank, Position, Place, Shows, Walked, Occurs, WalkedTo, WalkOverflows, LastOfWeek, Overflows;
    var start, r := StartDate(t.when), t.repeat;
    var out: seq<Occurrence> := [];
    StartsEmpty(t, from, to, lo);
    var pos: Option<nat> := None;
    var turns: nat := EXPAND_MAX + |t.skip| + |t.moved|;
    ghost var cur := lo;
    stop := lo;
    var jump := NextHit.NextHit(start, r, lo);
    if jump.Panicked? {
      FirstJumpPanics(start, r, lo, to);
      return Panicked, stop;
    }
    var next := jump.value;
    assert Walking(t, from, to, lo, cur, next, pos, turns, out);
    while next.Some? && next.value <= to && |out| < EXPAND_MAX && turns > 0
      invariant Walking(t, from, to, lo, cur, next, pos, turns, out)
      decreases turns
    {
      var d := next.value;
      RankOfNext(start, r, cur, d);
      PositionIsRank(start, r, d);
      var p := if pos.None? then Position(start, r, d) else Some(pos.value + 1);
      if p.None? { break; }
      if !WithinEnd(r, d, p.value) {
        stop := WalkRefused(t, from, to, lo, cur, next, pos, turns, out);
        return Returned(out), stop;
      }
      OccursBecause(start, r, d, p.value);
      WalkStep(t, from, to, lo, cur, d, out);
      OverflowIsEarly(t, from, to, lo, cur, next, pos, turns, out);
      jump := Returned(None);
      if d + 1 <= MAX_DAY {
        jump := NextHit.NextHit(start, r, d + 1);
        if jump.Panicked? {
          PanicIsSeen(t, from, to, lo, cur, next, pos, turns, out);
          return Panicked, stop;
        }
      }
      turns, pos := turns - 1, p;
      var o := Place(t, from, to, d);
      if o.Some? { out := out + [o.value]; }
      cur, next := d + 1, jump.value;
    }
    stop := WalkStops(t, from, to, lo, cur, next, pos, turns, out);
    return Returned(out), stop;
  }

  lemma FirstJumpPanics(start: int, r: Repeat, lo: int, to: int)
    requires ValidRepeat(r) && JumpOverflows(start, r, lo)
    ensures WalkOverflows(start, r, lo, to)
  {
  }

  /** A rule that overflows does so long before the calendar ends. */
  lemma OverflowIsEarly(t: Recurring, from: int, to: int, lo: int, cur: int, next: Option<int>, pos: Option<nat>, turns: nat, out: seq<Occurrence>)
    requires ValidRecurring(t) && StartDate(t.when) <= lo && Walking(t, from, to, lo, cur, next, pos, turns, out) && next.Some?
    ensures Overflows(StartDate(t.when), t.repeat) ==> next.value < MAX_DAY
  {
    hide Hit, Rank, Walked, LastOfWeek;
    if Overflows(StartDate(t.when), t.repeat) {
      LastIsHit(StartDate(t.when), t.repeat);
      NextIsByLast(StartDate(t.when), t.repeat, cur, next);
    }
  }

  lemma StartsEmpty(t: Recurring, from: int, to: int, lo: int)
    requires ValidRecurring(t)
    ensures Walked(t, from, to, lo, lo, [])
  {
  }

  lemma OccursBecause(start: int, r: Repeat, d: int, p: nat)
    requires 1 <= r.interval && Hit(start, r, d) && p == Rank(start, r, d) && WithinEnd(r, d, p)
    ensures Occurs(start, r, d)
  {
  }

  lemma NothingLeft(start: int, r: Repeat, cur: int, end: int)
    requires 1 <= r.interval && NoHits(start, r, cur, end)
    ensures forall d :: cur <= d < end ==> !Occurs(start, r, d)
  {
    hide Hit, Rank;
  }

  // --------------------------------------------------------------- the whole

  /** The dates the expansion looks at: the walked ones and the moved keys outside. */
  predicate Reached(t: Recurring, from: int, to: int, d: int) {
    var lo := WalkFrom(t.when, from);
    lo <= d <= WalkEnd(t.repeat, to) || (d in t.moved && !(lo <= d <= to))
  }

  /** Each occurrence stands for its own date, one the expansion looks at. */
  ghost predicate Placed(t: Recurring, from: int, to: int, out: seq<Occurrence>)
    requires ValidRecurring(t)
  {
    forall o :: o in out ==>
      Shows(t, from, to, o.date) && Place(t, from, to, o.date) == Some(o) && Reached(t, from, to, o.date)
  }

  /** Everything returned is genuine, once, in order. */
  ghost predicate Genuine(t: Recurring, from: int, to: int, out: seq<Occurrence>)
    requires ValidRecurring(t)
  {
    && Placed(t, from, to, out)
    && (forall i, j :: 0 <= i < j < |out| ==> out[i].date != out[j].date)
    && Sorted(ShowsBefore, out)
  }

  /** Before the walk or past its end. */
  predicate Outside(t: Recurring, from: int, to: int, d: int) {
    d < WalkFrom(t.when, from) || d > WalkEnd(t.repeat, to)
  }

  lemma MovedOutside(t: Recurring, from: int, to: int, d: int)
    requires d in t.moved && !(WalkFrom(t.when, from) <= d <= to)
    ensures Reached(t, from, to, d) && Outside(t, from, to, d)
  {
  }

  /** Nothing the view shows is missing among the walked dates before `stop` and the moved keys. */
  ghost predicate CompleteTo(t: Recurring, from: int, to: int, stop: int, out: seq<Occurrence>)
    requires ValidRecurring(t)
  {
    forall d :: Shows(t, from, to, d) && Reached(t, from, to, d) && (d < stop || Outside(t, from, to, d)) ==>
      Place(t, from, to, d).value in out
  }

  /** What the moved keys outside the walk show. */
  ghost predicate MovedIn(t: Recurring, from: int, to: int, lo: int, keys: seq<int>, out: seq<Occurrence>)
    requires ValidRecurring(t)
  {
    && (forall i :: 0 <= i < |out| ==>
          out[i].date in keys && !(lo <= out[i].date <= to) &&
          Shows(t, from, to, out[i].date) && Place(t, from, to, out[i].date) == Some(out[i]))
    && (forall i, j :: 0 <= i < j < |out| ==> out[i].date != out[j].date)
    && (forall d :: d in keys && !(lo <= d <= to) && Shows(t, from, to, d) ==> Place(t, from, to, d).value in out)
  }

  lemma MovedStep(t: Recurring, from: int, to: int, lo: int, keys: seq<int>, k: int, out: seq<Occurrence>, out': seq<Occurrence>)
    requires ValidRecurring(t) && k !in keys && MovedIn(t, from, to, lo, keys, out)
    requires out' == if !(lo <= k <= to) && Shows(t, from, to, k) then out + [Place(t, from, to, k).value] else out
    ensures MovedIn(t, from, to, lo, keys + [k], out')
  {
    hide Occurs, Place;
    PlaceDate(t, from, to, k);
    forall d | d in keys + [k] && !(lo <= d <= to) && Shows(t, from, to, d)
      ensures Place(t, from, to, d).value in out'
    {
      if d == k {
        assert out'[|out|] == Place(t, from, to, k).value;
      }
    }
  }

  lemma NoKeysNothing(t: Recurring, from: int, to: int, lo: int)
    requires ValidRecurring(t)
    ensures MovedIn(t, from, to, lo, [], [])
  {
  }

  method PlaceMoved(t: Recurring, from: int, to: int, lo: int) returns (out: seq<Occurrence>)
    requires ValidRecurring(t)
    ensures MovedIn(t, from, to, lo, Keys(t.moved.Keys), out) && |out| <= |t.moved|
  {
    hide Place, Occurs, IsOccurrence, MovedIn, Keys, ValidWhen, ValidRepeat;
    out := [];
    NoKeysNothing(t, from, to, lo);
    var keys := Keys(t.moved.Keys);
    for i := 0 to |keys|
      invariant MovedIn(t, from, to, lo, keys[..i], out) && |out| <= i
    {
      var k := keys[i];
      assert k !in keys[..i];
      IsOccurrenceIsExact(t.when, t.repeat, k);
      ghost var before := out;
      if (k < lo || k > to) && IsOccurrence(t.when, t.repeat, k) {
        var o := Place(t, from, to, k);
        if o.Some? { out := out + [o.value]; }
      }
      MovedStep(t, from, to, lo, keys[..i], k, before, out);
      assert keys[..i + 1] == keys[..i] + [k];
    }
    assert keys[..|keys|] == keys;
  }

  /** Walked dates lie in the walk, moved keys outside: no date twice. */
  lemma ApartByDate(t: Recurring, from: int, to: int, lo: int, stop: int, walked: seq<Occurrence>, moved: seq<Occurrence>)
    requires ValidRecurring(t) && lo <= stop && (stop <= WalkEnd(t.repeat, to) + 1 || stop == lo)
    requires Walked(t, from, to, lo, stop, walked) && MovedIn(t, from, to, lo, Keys(t.moved.Keys), moved)
    ensures var all := walked + moved; forall i, j :: 0 <= i < j < |all| ==> all[i].date != all[j].date
  {
    hide Place, Shows;
  }

  lemma AllComplete(t: Recurring, from: int, to: int, lo: int, stop: int, walked: seq<Occurrence>, moved: seq<Occurrence>)
    requires ValidRecurring(t) && lo == WalkFrom(t.when, from)
    requires Walked(t, from, to, lo, stop, walked) && MovedIn(t, from, to, lo, Keys(t.moved.Keys), moved)
    ensures CompleteTo(t, from, to, stop, walked + moved)
  {
    hide Place, Shows, WalkFrom;
  }

  lemma AllPlaced(t: Recurring, from: int, to: int, lo: int, stop: int, walked: seq<Occurrence>, moved: seq<Occurrence>)
    requires ValidRecurring(t) && lo == WalkFrom(t.when, from) && (stop <= WalkEnd(t.repeat, to) + 1 || stop == lo)
    requires Walked(t, from, to, lo, stop, walked) && MovedIn(t, from, to, lo, Keys(t.moved.Keys), moved)
    ensures Placed(t, from, to, walked + moved)
  {
    hide Place, Shows, WalkFrom, WalkEnd;
    forall o | o in walked + moved
      ensures Shows(t, from, to, o.date) && Place(t, from, to, o.date) == Some(o) && Reached(t, from, to, o.date)
    {
      if o in walked {
        var i :| 0 <= i < |walked| && walked[i] == o;
      } else {
        var i :| 0 <= i < |moved| && moved[i] == o;
      }
    }
  }

  lemma Assemble(t: Recurring, from: int, to: int, lo: int, stop: int, walked: seq<Occurrence>, moved: seq<Occurrence>)
    requires ValidRecurring(t) && lo == WalkFrom(t.when, from) && lo <= stop
    requires Walked(t, from, to, lo, stop, walked) && (stop <= WalkEnd(t.repeat, to) + 1 || stop == lo)
    requires MovedIn(t, from, to, lo, Keys(t.moved.Keys), moved)
    ensures var out := Sort(ShowsBefore, walked + moved);
            Genuine(t, from, to, out) && CompleteTo(t, from, to, stop, out)
  {
    hide Place, Shows, WalkFrom, Walked, MovedIn, ShowsBefore, Sort, TotalPreorder, Reached;
    var all := walked + moved;
    var out := Sort(ShowsBefore, all);
    ShowsBeforeIsTotal();
    SortSorted(ShowsBefore, all);
    MultisetMembers(out, all);
    AllPlaced(t, from, to, lo, stop, walked, moved);
    AllComplete(t, from, to, lo, stop, walked, moved);
    ApartByDate(t, from, to, lo, stop, walked, moved);
    DistinctBySort(out, all);
  }

  lemma DistinctBySort(a: seq<Occurrence>, b: seq<Occurrence>)
    requires multiset(a) == multiset(b)
    requires forall i, j :: 0 <= i < j < |b| ==> b[i].date != b[j].date
    ensures forall i, j :: 0 <= i < j < |a| ==> a[i].date != a[j].date
  {
    MultisetMembers(a, b);
    assert Unrepeated(b);
    UnrepeatedBySort(a, b);
    forall i, j | 0 <= i < j < |a|
      ensures a[i].date != a[j].date
    {
      assert a[i] in b && a[j] in b;
    }
  }

  /**
   The expansion of a series over `[from, to]`: always genuine and bounded,
   complete up to where the walk stopped, and the walk stops early only when
   more than `EXPAND_MAX` hits lie in its range.
   */
  method ExpandSeries(t: Recurring, from: int, to: int) returns (res: Ran<seq<Occurrence>>, ghost stop: int)
    requires ValidRecurring(t) && MIN_DAY <= from <= MAX_DAY && to <= MAX_DAY
    ensures res.Panicked? <==> WalkOverflows(StartDate(t.when), t.repeat, WalkFrom(t.when, from), to)
    ensures res.Returned? ==>
              && Genuine(t, from, to, res.value) && |res.value| <= EXPAND_MAX + |t.moved|
              && CompleteTo(t, from, to, stop, res.value)
              && (stop <= WalkEnd(t.repeat, to) ==> HitsIn(t, WalkFrom(t.when, from), WalkEnd(t.repeat, to)) > EXPAND_MAX)
  {
    hide Walked, MovedIn, Genuine, CompleteTo, HitsIn, WalkOverflows;
    var lo := WalkFrom(t.when, from);
    var walked;
    walked, stop := Walk(t, from, to, lo);
    if walked.Panicked? { return Panicked, stop; }
    var moved := PlaceMoved(t, from, to, lo);
    res := Returned(Sort(ShowsBefore, walked.value + moved));
    Assemble(t, from, to, lo, stop, walked.value, moved);
  }

  /** Counted from the midnight of its first day, the window ends within 367 days. */
  predicate ShortEnough(w: When) {
    Begins(w) % DAY + (Ends(w) - Begins(w)) <= (EXPAND_REACH_DAYS + 1) * DAY
  }

  /** An unmoved window that overlaps the view starts in the walked range. */
  lemma UnmovedInReach(t: Recurring, from: int, to: int, d: int)
    requires ValidRecurring(t) && ShortEnough(t.when)
    requires StartDate(t.when) <= d && d !in t.moved && Place(t, from, to, d).Some?
    ensures WalkFrom(t.when, from) <= d <= to
  {
    var w, days := t.when, d - StartDate(t.when);
    var s := Shifted(w, days).value;
    assert Begins(s) == Begins(w) + days * DAY && Ends(s) <= Ends(w) + days * DAY;
    assert d * DAY <= Begins(s) < d * DAY + DAY;
    assert Ends(w) - Begins(w) < SpanDays(w) * DAY;
  }

  /** With windows short enough, the whole view is reached. */
  lemma ShownIsReached(t: Recurring, from: int, to: int, d: int)
    requires ValidRecurring(t) && ShortEnough(t.when) && to <= Horizon(t.repeat)
    requires Shows(t, from, to, d)
    ensures Reached(t, from, to, d)
  {
    hide Hit, Rank, Place, WalkFrom, ShortEnough;
    if d < StartDate(t.when) { BeforeStart(StartDate(t.when), t.repeat, d); }
    if d !in t.moved {
      UnmovedInReach(t, from, to, d);
    }
  }

  /** An occurrence in its own place: neither skipped nor moved, its window inside the calendar. */
  predicate InPlace(t: Recurring, d: int)
    requires ValidRecurring(t)
  {
    && Occurs(StartDate(t.when), t.repeat, d) && d !in t.skip && d !in t.moved
    && Shifted(t.when, d - StartDate(t.when)).Some?
  }

  /** A view of one day that a longer window touches shows its occurrence, and the walk starts after it. */
  lemma LongIsMissed(t: Recurring, d: int)
    requires ValidRecurring(t) && !ShortEnough(t.when) && InPlace(t, d)
    ensures var from := d + EXPAND_REACH_DAYS + 1; Shows(t, from, from, d) && !Reached(t, from, from, d)
  {
    hide Occurs, Horizon, Hit, Rank;
    var w, start := t.when, StartDate(t.when);
    var from, s := d + EXPAND_REACH_DAYS + 1, Shifted(w, d - start).value;
    OccursLater(start, t.repeat, d);
    assert Begins(w) == start * DAY + Begins(w) % DAY;
    assert Begins(s) == Begins(w) + (d - start) * DAY;
    assert Ends(s) - Begins(s) == Ends(w) - Begins(w);
    assert Ends(s) > from * DAY;
    assert SpanDays(w) >= EXPAND_REACH_DAYS;
  }

  lemma OccursLater(start: int, r: Repeat, d: int)
    requires 1 <= r.interval && Occurs(start, r, d)
    ensures start <= d
  {
    hide Rank;
  }

  /** The expansion looks at everything a view should show, exactly if the windows are short enough or none stands a reach before the horizon. */
  lemma ReachedIffShort(t: Recurring)
    requires ValidRecurring(t)
    ensures (forall from, to, d :: from <= to <= Horizon(t.repeat) && Shows(t, from, to, d) ==> Reached(t, from, to, d))
       <==> ShortEnough(t.when) || forall d :: InPlace(t, d) ==> d + EXPAND_REACH_DAYS + 1 > Horizon(t.repeat)
  {
    hide Shows, Reached, ShortEnough, InPlace;
    if ShortEnough(t.when) {
      forall from, to, d | from <= to <= Horizon(t.repeat) && Shows(t, from, to, d)
        ensures Reached(t, from, to, d)
      {
        ShownIsReached(t, from, to, d);
      }
    } else if d :| InPlace(t, d) && d + EXPAND_REACH_DAYS + 1 <= Horizon(t.repeat) {
      LongIsMissed(t, d);
    } else {
      forall from, to, d | from <= to <= Horizon(t.repeat) && Shows(t, from, to, d)
        ensures Reached(t, from, to, d)
      {
        NearIsReached(t, from, to, d);
      }
    }
  }

  /** What a view shows of an occurrence less than a reach before it is reached. */
  lemma NearIsReached(t: Recurring, from: int, to: int, d: int)
    requires ValidRecurring(t) && from <= to <= Horizon(t.repeat) && Shows(t, from, to, d)
    requires InPlace(t, d) ==> d + EXPAND_REACH_DAYS + 1 > Horizon(t.repeat)
    ensures Reached(t, from, to, d) || ShortEnough(t.when)
  {
    hide Occurs, Hit, Rank, Horizon;
    OccursLater(StartDate(t.when), t.repeat, d);
    if d !in t.moved && !ShortEnough(t.when) {
      assert SpanDays(t.when) >= EXPAND_REACH_DAYS;
    }
  }

  /** A once-timed task shows its one window; a series its occurrences. */
  method Expand(when: When, repeat: Option<Repeat>, skip: seq<int>, moved: map<int, When>, from: int, to: int)
    returns (res: Ran<seq<Occurrence>>)
    requires ValidWhen(when) && MIN_DAY <= from <= MAX_DAY && to <= MAX_DAY
    requires repeat.Some? ==> ValidRecurring(SeriesOf(when, repeat.value, skip, moved))
    ensures res.Panicked? <==> repeat.Some? && WalkOverflows(StartDate(when), repeat.value, WalkFrom(when, from), to)
    ensures repeat.None? ==>
              res.value == if Overlaps(when, from, to) then [Occurrence(StartDate(when), when, false)] else []
    ensures repeat.Some? && res.Returned? ==>
              var t, out := SeriesOf(when, repeat.value, skip, moved), res.value;
              && (forall o :: o in out ==> Belongs(t, from, to, o) && Reached(t, from, to, o.date))
              && InViewOrder(out) && (forall i, j :: 0 <= i < j < |out| ==> out[i].date != out[j].date)
              && |out| <= EXPAND_MAX + |moved|
              && (forall o :: Belongs(t, from, to, o) && o.date in moved && !(WalkFrom(when, from) <= o.date <= to) ==> o in out)
              && (HitsIn(t, WalkFrom(when, from), WalkEnd(t.repeat, to)) <= EXPAND_MAX ==>
                    forall o :: Belongs(t, from, to, o) && Reached(t, from, to, o.date) ==> o in out)
              && (HitsIn(t, WalkFrom(when, from), WalkEnd(t.repeat, to)) <= EXPAND_MAX
                  && ShortEnough(when) && to <= Horizon(t.repeat) ==>
                    forall o :: Belongs(t, from, to, o) ==> o in out)
  {
    hide Place, Shows, HitsIn, WalkFrom, Reached, ShortEnough, WalkOverflows, Belongs, InViewOrder;
    if repeat.None? {
      return Returned(if Overlaps(when, from, to) then [Occurrence(StartDate(when), when, false)] else []);
    }
    var t := SeriesOf(when, repeat.value, skip, moved);
    ghost var stop;
    res, stop := ExpandSeries(t, from, to);
    if res.Panicked? { return; }
    forall o
      ensures Belongs(t, from, to, o) ==> Shows(t, from, to, o.date) && Place(t, from, to, o.date) == Some(o)
      ensures o in res.value ==> Belongs(t, from, to, o)
    {
      PlacedBelongs(t, from, to, o);
    }
    GenuineIsOrdered(t, from, to, res.value);
    forall o | Belongs(t, from, to, o) && o.date in moved && !(WalkFrom(when, from) <= o.date <= to)
      ensures o in res.value
    {
      MovedOutside(t, from, to, o.date);
    }
    if ShortEnough(when) && to <= Horizon(t.repeat) {
      forall d | Shows(t, from, to, d)
        ensures Reached(t, from, to, d)
      {
        ShownIsReached(t, from, to, d);
      }
    }
  }

  /** By begin, then by original date, each date once. */
  ghost predicate InViewOrder(out: seq<Occurrence>) {
    forall i, j :: 0 <= i < j < |out| ==>
      Begins(out[i].window) < Begins(out[j].window) || (Begins(out[i].window) == Begins(out[j].window) && out[i].date < out[j].date)
  }

  lemma GenuineIsOrdered(t: Recurring, from: int, to: int, out: seq<Occurrence>)
    requires ValidRecurring(t) && Genuine(t, from, to, out)
    ensures InViewOrder(out)
  {
    hide Placed, Begins;
    forall i, j | 0 <= i < j < |out|
      ensures Begins(out[i].window) < Begins(out[j].window) || (Begins(out[i].window) == Begins(out[j].window) && out[i].date < out[j].date)
    {
      assert ShowsBefore(out[i], out[j]) && out[i].date != out[j].date;
    }
  }
}
