/**
 The start timer: which of a seat's timed tasks are due to start now, and
 when the timer fires next. The scan reads a capped expansion of each task;
 the contract says the cap never hides a start.
 */
module StartScan {
  import opened Prelude
  import opened Civil
  import opened Series
  import opened NextHit
  import opened Windows
  import opened Expand
  import opened Sorting
  import opened Board
  import opened Derive
  import KanbanFold
  import TaskGraph

  const MISSED_HORIZON: int := 86400
  const LOOKAHEAD_DAYS: int := 15

  datatype StartDue = StartDue(task: TaskId, occurrence: Option<int>, begins: int, blocked: bool)

  /** What a task must be for its starts to be scanned, as folded tasks are. */
  ghost predicate ScanTask(t: Task) {
    && (t.when.Some? ==> ValidWhen(t.when.value))
    && (t.repeat.Some? ==> t.when.Some? && ValidRepeat(t.repeat.value))
    && (forall k <- t.moved :: WireDate(k) && ValidWhen(t.moved[k]))
  }

  function TaskSeries(t: Task): Recurring
    requires t.when.Some? && t.repeat.Some?
  {
    SeriesOf(t.when.value, t.repeat.value, t.skip, t.moved)
  }

  /**
   The task has a start at `begins`, of the occurrence of `date`: where a moved
   occurrence was moved to, and else where the series' own window stands that
   many days later.
   */
  ghost predicate IsStart(t: Task, date: int, begins: int)
    requires ScanTask(t)
  {
    t.when.Some? &&
    if t.repeat.None? then date == StartDate(t.when.value) && begins == Begins(t.when.value)
    else
      var start, r := StartDate(t.when.value), t.repeat.value;
      && Occurs(start, r, date) && date <= Horizon(r) && date !in t.skip
      && if date in t.moved then begins == Begins(t.moved[date])
         else exists v :: IsLater(t.when.value, v, date - start) && InCalendar(v) && begins == Begins(v)
  }

  /** The start of an occurrence, through the window the expansion gives it. */
  lemma StartIsWindow(t: Task, date: int, begins: int)
    requires ScanTask(t) && t.repeat.Some?
    ensures IsStart(t, date, begins) <==>
            var s := TaskSeries(t);
            && Occurs(StartDate(s.when), s.repeat, date) && date <= Horizon(s.repeat) && date !in t.skip
            && WindowOf(s, date).Some? && Begins(WindowOf(s, date).value) == begins
  {
    hide Occurs, Shifted, IsLater, InCalendar, Begins, Horizon;
    var days := date - StartDate(t.when.value);
    if date !in t.moved {
      if Shifted(t.when.value, days).Some? {
        ShiftedIs(t.when.value, days, Shifted(t.when.value, days).value);
      }
      forall v | IsLater(t.when.value, v, days) && InCalendar(v)
        ensures Shifted(t.when.value, days) == Some(v)
      {
        ShiftedIs(t.when.value, days, v);
      }
    }
  }

  function FirstDay(now: int): int {
    (now - MISSED_HORIZON) / DAY
  }

  function LastDay(now: int, lead: int): int {
    var d := (now + lead) / DAY + LOOKAHEAD_DAYS;
    if d <= MAX_DAY then d else MAX_DAY
  }

  /** The scan's own clock arithmetic stays inside what the clock type can hold. */
  ghost predicate ClockOk(now: int, lead: int) {
    MIN_DAY * DAY + MISSED_HORIZON <= now && now + lead <= MAX_INSTANT && 0 <= lead <= 65535 * 60
  }

  /** An instant the clock type can hold. */
  ghost predicate IsInstant(now: int) {
    MIN_DAY * DAY <= now <= MAX_INSTANT
  }

  /** Expanding the task around `now` overflows. */
  ghost predicate TaskOverflows(t: Task, now: int, lead: int)
    requires ScanTask(t)
  {
    t.when.Some? && t.repeat.Some? &&
    WalkOverflows(StartDate(t.when.value), t.repeat.value, WalkFrom(t.when.value, FirstDay(now)), LastDay(now, lead))
  }

  /** A start the scan must look at: at most a day old, before the lookahead ends. */
  predicate InView(now: int, lead: int, begins: int) {
    now - MISSED_HORIZON < begins < Midnight(LastDay(now, lead) + 1)
  }

  lemma ViewBounds(now: int, lead: int)
    requires ClockOk(now, lead)
    ensures var from, to := FirstDay(now), LastDay(now, lead);
            && MIN_DAY <= from <= MAX_DAY && to <= MAX_DAY && from <= to && to - from <= 63
  {
  }

  /** The scan's window is too short for the expansion cap to bind. */
  lemma CapNeverBinds(s: Recurring, now: int, lead: int)
    requires ValidRecurring(s) && ClockOk(now, lead)
    ensures HitsIn(s, WalkFrom(s.when, FirstDay(now)), WalkEnd(s.repeat, LastDay(now, lead))) <= EXPAND_MAX
  {
    hide Rank, Hit, Horizon, StartDate, SpanDays;
    ViewBounds(now, lead);
    var from, to := FirstDay(now), LastDay(now, lead);
    var lo, hi := WalkFrom(s.when, from), WalkEnd(s.repeat, to);
    WalkFromNear(s.when, from);
    if lo <= hi + 1 {
      RankSpan(StartDate(s.when), s.repeat, lo, hi + 1);
    } else {
      RankMonotone(StartDate(s.when), s.repeat, hi + 1, lo);
    }
  }

  lemma WalkFromNear(w: When, from: int)
    requires ValidWhen(w) && MIN_DAY <= from
    ensures from - EXPAND_REACH_DAYS <= WalkFrom(w, from)
    ensures StartDate(w) <= from ==> WalkFrom(w, from) <= from
    ensures from < StartDate(w) ==> WalkFrom(w, from) == StartDate(w)
  {
    assert 0 < SpanDays(w) by { EndsAfterBegins(w); }
  }

  lemma EndsAfterBegins(w: When)
    requires ValidWhen(w)
    ensures Begins(w) < Ends(w)
  {
  }

  lemma ShiftedWindow(w: When, days: int)
    requires ValidWhen(w) && Shifted(w, days).Some?
    ensures var s := Shifted(w, days).value;
            Begins(s) < Ends(s) && Begins(s) == Begins(w) + days * DAY && Begins(s) / DAY == StartDate(w) + days
  {
  }

  /** A window that begins in view overlaps it. */
  lemma InViewOverlaps(w: When, now: int, lead: int)
    requires ClockOk(now, lead) && Begins(w) < Ends(w) && InView(now, lead, Begins(w))
    ensures Overlaps(w, FirstDay(now), LastDay(now, lead))
  {
  }

  /** A start in view is shown and reached by the expansion. */
  lemma StartIsExpanded(t: Task, date: int, begins: int, now: int, lead: int)
    requires ScanTask(t) && t.repeat.Some? && IsStart(t, date, begins)
    requires ClockOk(now, lead) && InView(now, lead, begins)
    ensures ValidRecurring(TaskSeries(t))
    ensures var s, from, to := TaskSeries(t), FirstDay(now), LastDay(now, lead);
            && Shows(s, from, to, date) && Reached(s, from, to, date)
            && Begins(Place(s, from, to, date).value.window) == begins
  {
    hide Hit, Rank, Occurs;
    var s, from, to := TaskSeries(t), FirstDay(now), LastDay(now, lead);
    assert ValidRecurring(s);
    StartIsWindow(t, date, begins);
    hide IsStart;
    var w := WindowOf(s, date).value;
    ViewBounds(now, lead);
    if date in t.moved {
      EndsAfterBegins(w);
    } else {
      ShiftedWindow(s.when, date - StartDate(s.when));
      assert from <= date <= to by { DayInView(now, lead, begins); }
      OccursFromStart(StartDate(s.when), s.repeat, date);
      WalkFromNear(s.when, from);
    }
    InViewOverlaps(w, now, lead);
  }

  lemma OccursFromStart(start: int, r: Repeat, date: int)
    requires 1 <= r.interval && Occurs(start, r, date)
    ensures start <= date
  {
  }

  lemma DayInView(now: int, lead: int, begins: int)
    requires ClockOk(now, lead) && InView(now, lead, begins)
    ensures FirstDay(now) <= begins / DAY <= LastDay(now, lead)
  {
  }

  /** What the expansion returns are starts, one per date. */
  lemma ExpandedIsStart(t: Task, from: int, to: int, o: Occurrence)
    requires ScanTask(t) && t.repeat.Some? && ValidRecurring(TaskSeries(t)) && to <= MAX_DAY
    requires Shows(TaskSeries(t), from, to, o.date) && Place(TaskSeries(t), from, to, o.date) == Some(o)
    requires Reached(TaskSeries(t), from, to, o.date)
    ensures IsStart(t, o.date, Begins(o.window))
    ensures Begins(o.window) < Midnight(to + 1)
  {
    hide Hit, Rank, Occurs, WalkFrom, IsStart;
    StartIsWindow(t, o.date, Begins(o.window));
  }

  // ------------------------------------------------------------------ one task

  ghost predicate Fires(t: Task, now: int, lead: int, date: int, begins: int)
    requires ScanTask(t)
  {
    IsStart(t, date, begins) && begins - lead <= now < begins + MISSED_HORIZON
  }

  ghost predicate FiresLater(t: Task, now: int, lead: int, date: int, begins: int)
    requires ScanTask(t)
  {
    IsStart(t, date, begins) && now < begins - lead && begins / DAY <= (now + lead) / DAY + LOOKAHEAD_DAYS
  }

  /** `out` is what the task shows in the scan's window. */
  ghost predicate TaskExpansion(t: Task, now: int, lead: int, out: seq<Occurrence>)
    requires ScanTask(t)
  {
    && (forall i :: 0 <= i < |out| ==>
          IsStart(t, out[i].date, Begins(out[i].window)) && Begins(out[i].window) < Midnight(LastDay(now, lead) + 1))
    && (forall i, j :: 0 <= i < j < |out| ==> out[i].date != out[j].date)
    && (forall date, begins :: IsStart(t, date, begins) && InView(now, lead, begins) ==>
          exists i :: 0 <= i < |out| && out[i].date == date && Begins(out[i].window) == begins)
  }

  method ExpandTask(t: Task, now: int, lead: int) returns (res: Ran<seq<Occurrence>>)
    requires ScanTask(t) && t.when.Some? && ClockOk(now, lead)
    ensures res.Panicked? <==> TaskOverflows(t, now, lead)
    ensures res.Returned? ==> TaskExpansion(t, now, lead, res.value) && InViewOrder(res.value)
  {
    hide Hit, Rank, Occurs, Place, Reached, WalkFrom, HitsIn, FirstDay, LastDay, ClockOk, InView, Overlaps, SpanDays, WalkOverflows, Belongs, InViewOrder, IsStart;
    ViewBounds(now, lead);
    var from, to := FirstDay(now), LastDay(now, lead);
    res := Expand.Expand(t.when.value, t.repeat, t.skip, t.moved, from, to);
    if res.Panicked? { return; }
    var out := res.value;
    if t.repeat.None? {
      OnceExpansion(t, now, lead, out);
    } else {
      ghost var s := TaskSeries(t);
      CapNeverBinds(s, now, lead);
      forall i | 0 <= i < |out|
        ensures IsStart(t, out[i].date, Begins(out[i].window)) && Begins(out[i].window) < Midnight(to + 1)
      {
        assert out[i] in out;
        PlacedBelongs(s, from, to, out[i]);
        ExpandedIsStart(t, from, to, out[i]);
      }
      forall date, begins | IsStart(t, date, begins) && InView(now, lead, begins)
        ensures exists i :: 0 <= i < |out| && out[i].date == date && Begins(out[i].window) == begins
      {
        StartIsExpanded(t, date, begins, now, lead);
        PlaceDate(s, from, to, date);
        var o := Place(s, from, to, date).value;
        PlacedBelongs(s, from, to, o);
        assert o in out;
      }
    }
  }

  lemma OnceExpansion(t: Task, now: int, lead: int, out: seq<Occurrence>)
    requires ScanTask(t) && t.when.Some? && t.repeat.None? && ClockOk(now, lead)
    requires out == if Overlaps(t.when.value, FirstDay(now), LastDay(now, lead))
                    then [Occurrence(StartDate(t.when.value), t.when.value, false)] else []
    ensures TaskExpansion(t, now, lead, out) && InViewOrder(out)
  {
    var w := t.when.value;
    EndsAfterBegins(w);
    if InView(now, lead, Begins(w)) {
      InViewOverlaps(w, now, lead);
      assert out[0].date == StartDate(w);
    }
  }

  /** The task's due starts. */
  ghost predicate DueOf(id: TaskId, t: Task, blocked: bool, now: int, lead: int, e: StartDue)
    requires ScanTask(t)
  {
    && e.task == id && e.blocked == blocked
    && exists date :: Fires(t, now, lead, date, e.begins) && e.occurrence == (if t.repeat.Some? then Some(date) else None)
  }

  /** `next` is the least later fire time of the task, or `before` if that is sooner. */
  ghost predicate LowersTo(t: Task, now: int, lead: int, before: Option<int>, next: Option<int>)
    requires ScanTask(t)
  {
    && (before.Some? ==> next.Some? && next.value <= before.value)
    && (next.Some? ==> next == before || exists date, begins :: FiresLater(t, now, lead, date, begins) && next.value == begins - lead)
    && (forall date, begins :: FiresLater(t, now, lead, date, begins) ==> next.Some? && next.value <= begins - lead)
  }

  /** What the loop has seen of the task's expansion. */
  ghost predicate SeenDue(id: TaskId, t: Task, blocked: bool, now: int, lead: int, out: seq<Occurrence>, due: seq<StartDue>)
  {
    && (forall e :: e in due ==> exists i :: 0 <= i < |out| && DueEntry(id, t, blocked, now, lead, out[i], e))
    && (forall i :: 0 <= i < |out| && Due(now, lead, out[i]) ==> EntryFor(id, t, blocked, out[i]) in due)
    && Unrepeated(due)
  }

  predicate Due(now: int, lead: int, o: Occurrence) {
    Begins(o.window) - lead <= now && now - Begins(o.window) < MISSED_HORIZON
  }

  function EntryFor(id: TaskId, t: Task, blocked: bool, o: Occurrence): StartDue {
    StartDue(id, if IsSeries(t) then Some(o.date) else None, Begins(o.window), blocked)
  }

  ghost predicate DueEntry(id: TaskId, t: Task, blocked: bool, now: int, lead: int, o: Occurrence, e: StartDue) {
    Due(now, lead, o) && e == EntryFor(id, t, blocked, o)
  }

  ghost predicate SeenNext(now: int, lead: int, out: seq<Occurrence>, before: Option<int>, next: Option<int>) {
    && (before.Some? ==> next.Some? && next.value <= before.value)
    && (next.Some? ==> next == before || exists i :: 0 <= i < |out| && now < Begins(out[i].window) - lead == next.value)
    && (forall i :: 0 <= i < |out| && now < Begins(out[i].window) - lead ==> next.Some? && next.value <= Begins(out[i].window) - lead)
  }

  /** Another date gives another entry. */
  lemma NotSeenYet(id: TaskId, t: Task, blocked: bool, now: int, lead: int, out: seq<Occurrence>, k: nat, due: seq<StartDue>)
    requires k < |out| && SeenDue(id, t, blocked, now, lead, out[..k], due)
    requires IsSeries(t) || |out| == 1
    requires forall i, j :: 0 <= i < j < |out| ==> out[i].date != out[j].date
    ensures EntryFor(id, t, blocked, out[k]) !in due
  {
    forall x | x in due
      ensures x != EntryFor(id, t, blocked, out[k])
    {
      var i :| 0 <= i < |out[..k]| && DueEntry(id, t, blocked, now, lead, out[..k][i], x);
      assert out[..k][i] == out[i];
    }
  }

  lemma SeenOneMore(id: TaskId, t: Task, blocked: bool, now: int, lead: int, out: seq<Occurrence>, k: nat, due: seq<StartDue>)
    requires k < |out| && SeenDue(id, t, blocked, now, lead, out[..k], due)
    requires IsSeries(t) || |out| == 1
    requires forall i, j :: 0 <= i < j < |out| ==> out[i].date != out[j].date
    ensures SeenDue(id, t, blocked, now, lead, out[..k + 1], if Due(now, lead, out[k]) then due + [EntryFor(id, t, blocked, out[k])] else due)
  {
    var e, seen, more := EntryFor(id, t, blocked, out[k]), out[..k], out[..k + 1];
    assert more == seen + [out[k]];
    NotSeenYet(id, t, blocked, now, lead, out, k, due);
    var due' := if Due(now, lead, out[k]) then due + [e] else due;
    forall x | x in due'
      ensures exists i :: 0 <= i < |more| && DueEntry(id, t, blocked, now, lead, more[i], x)
    {
      if x in due {
        var i :| 0 <= i < |seen| && DueEntry(id, t, blocked, now, lead, seen[i], x);
        assert more[i] == seen[i];
      } else {
        assert more[k] == out[k];
      }
    }
  }

  /** By task, then by start, then by the original date. */
  predicate DueBefore(a: StartDue, b: StartDue) {
    a.task < b.task || (a.task == b.task && (a.begins < b.begins || (a.begins == b.begins && DateBefore(a.occurrence, b.occurrence))))
  }

  predicate DateBefore(a: Option<int>, b: Option<int>) {
    a.Some? && b.Some? ==> a.value <= b.value
  }

  ghost predicate InDueOrder(due: seq<StartDue>) {
    forall i, j :: 0 <= i < j < |due| ==> DueBefore(due[i], due[j])
  }

  /** The entry of a later occurrence comes after all before it. */
  lemma DueComesLater(id: TaskId, t: Task, blocked: bool, now: int, lead: int, out: seq<Occurrence>, k: nat, due: seq<StartDue>)
    requires k < |out| && InViewOrder(out) && SeenDue(id, t, blocked, now, lead, out[..k], due) && InDueOrder(due)
    ensures InDueOrder(due + [EntryFor(id, t, blocked, out[k])])
  {
    hide Begins, Due;
    var e := EntryFor(id, t, blocked, out[k]);
    forall i | 0 <= i < |due|
      ensures DueBefore(due[i], e)
    {
      assert due[i] in due;
      var m :| 0 <= m < |out[..k]| && DueEntry(id, t, blocked, now, lead, out[..k][m], due[i]);
      assert out[..k][m] == out[m];
    }
  }

  lemma SeenNextMore(now: int, lead: int, out: seq<Occurrence>, k: nat, before: Option<int>, next: Option<int>)
    requires k < |out| && SeenNext(now, lead, out[..k], before, next)
    ensures var fire := Begins(out[k].window) - lead;
            SeenNext(now, lead, out[..k + 1], before,
              if fire <= now then next else Some(if next.None? || fire < next.value then fire else next.value))
  {
    hide Begins;
    var fire, seen, more := Begins(out[k].window) - lead, out[..k], out[..k + 1];
    assert more == seen + [out[k]];
    assert more[k] == out[k];
    if next.Some? && next != before {
      var i :| 0 <= i < |seen| && now < Begins(seen[i].window) - lead == next.value;
      assert more[i] == seen[i];
    }
  }

  /** One task of the scan: its due starts, and the next fire time lowered to its own. */
  method ScanTaskStarts(id: TaskId, t: Task, blocked: bool, now: int, lead: int, before: Option<int>)
    returns (res: Ran<(seq<StartDue>, Option<int>)>)
    requires ScanTask(t) && t.when.Some? && ClockOk(now, lead)
    ensures res.Panicked? <==> TaskOverflows(t, now, lead)
    ensures res.Returned? ==>
              var (due, next) := res.value;
              && (forall e :: e in due <==> DueOf(id, t, blocked, now, lead, e))
              && Unrepeated(due) && InDueOrder(due) && LowersTo(t, now, lead, before, next)
  {
    hide IsStart, LastDay, ClockOk, SeenDue, InDueOrder, InViewOrder, SeenNext, Due, EntryFor, TaskExpansion, Begins, DueOf, LowersTo, ScanTask, TaskOverflows;
    var ran := ExpandTask(t, now, lead);
    if ran.Panicked? { return Panicked; }
    var out := ran.value;
    ExpansionFacts(t, now, lead, out);
    var due: seq<StartDue>, next := [], before;
    NothingSeen(id, t, blocked, now, lead, before);
    assert out[..0] == [];
    for k := 0 to |out|
      invariant SeenDue(id, t, blocked, now, lead, out[..k], due) && InDueOrder(due)
      invariant SeenNext(now, lead, out[..k], before, next)
    {
      var begins := Begins(out[k].window);
      var fire := begins - lead;
      SeenOneMore(id, t, blocked, now, lead, out, k, due);
      DueComesLater(id, t, blocked, now, lead, out, k, due);
      SeenNextMore(now, lead, out, k, before, next);
      DueMeaning(now, lead, out[k]);
      EntryMeaning(id, t, blocked, out[k]);
      if fire > now {
        next := Some(if next.None? || fire < next.value then fire else next.value);
      } else if now - begins < MISSED_HORIZON {
        due := due + [StartDue(id, if IsSeries(t) then Some(out[k].date) else None, begins, blocked)];
      }
    }
    assert out[..|out|] == out;
    DueIsExact(id, t, blocked, now, lead, out, due);
    NextIsExact(t, now, lead, out, before, next);
    return Returned((due, next));
  }

  lemma OnceHasOneDate(t: Task, d: int, b: int, d': int, b': int)
    requires ScanTask(t) && !IsSeries(t) && IsStart(t, d, b) && IsStart(t, d', b')
    ensures d == d'
  {
  }

  lemma ExpansionFacts(t: Task, now: int, lead: int, out: seq<Occurrence>)
    requires ScanTask(t) && t.when.Some? && TaskExpansion(t, now, lead, out)
    ensures forall i, j :: 0 <= i < j < |out| ==> out[i].date != out[j].date
    ensures IsSeries(t) || |out| <= 1
  {
    hide IsStart, LastDay, InView;
    if !IsSeries(t) && |out| > 1 {
      OnceHasOneDate(t, out[0].date, Begins(out[0].window), out[1].date, Begins(out[1].window));
    }
  }

  lemma NothingSeen(id: TaskId, t: Task, blocked: bool, now: int, lead: int, before: Option<int>)
    ensures SeenDue(id, t, blocked, now, lead, [], []) && SeenNext(now, lead, [], before, before) && InDueOrder([])
  {
  }

  lemma DueMeaning(now: int, lead: int, o: Occurrence)
    ensures Due(now, lead, o) <==> Begins(o.window) - lead <= now && now - Begins(o.window) < MISSED_HORIZON
  {
  }

  lemma EntryMeaning(id: TaskId, t: Task, blocked: bool, o: Occurrence)
    ensures EntryFor(id, t, blocked, o) == StartDue(id, if IsSeries(t) then Some(o.date) else None, Begins(o.window), blocked)
  {
  }

  lemma DueIsExact(id: TaskId, t: Task, blocked: bool, now: int, lead: int, out: seq<Occurrence>, due: seq<StartDue>)
    requires ScanTask(t) && ClockOk(now, lead) && TaskExpansion(t, now, lead, out)
    requires SeenDue(id, t, blocked, now, lead, out, due)
    ensures forall e :: e in due <==> DueOf(id, t, blocked, now, lead, e)
    ensures Unrepeated(due)
  {
    hide IsStart, LastDay;
    forall e
      ensures e in due <==> DueOf(id, t, blocked, now, lead, e)
    {
      if e in due {
        var i :| 0 <= i < |out| && DueEntry(id, t, blocked, now, lead, out[i], e);
        assert Fires(t, now, lead, out[i].date, e.begins);
      }
      if DueOf(id, t, blocked, now, lead, e) {
        var date :| Fires(t, now, lead, date, e.begins) && e.occurrence == (if t.repeat.Some? then Some(date) else None);
        assert InView(now, lead, e.begins) by { DueIsInView(now, lead, e.begins); }
        var i :| 0 <= i < |out| && out[i].date == date && Begins(out[i].window) == e.begins;
        assert EntryFor(id, t, blocked, out[i]) == e;
      }
    }
  }

  lemma DueIsInView(now: int, lead: int, begins: int)
    requires ClockOk(now, lead) && begins - lead <= now < begins + MISSED_HORIZON
    ensures InView(now, lead, begins)
  {
  }

  /** No start lies past what the clock can hold. */
  lemma StartInCalendar(t: Task, date: int, begins: int)
    requires ScanTask(t) && IsStart(t, date, begins)
    ensures begins <= MAX_INSTANT
  {
    hide Occurs, Horizon;
  }

  /** The last day of the lookahead, as days. */
  lemma LookaheadIs(now: int, lead: int, begins: int)
    requires begins <= MAX_INSTANT
    ensures begins < Midnight(LastDay(now, lead) + 1) <==> begins / DAY <= (now + lead) / DAY + LOOKAHEAD_DAYS
  {
  }

  lemma NextIsExact(t: Task, now: int, lead: int, out: seq<Occurrence>, before: Option<int>, next: Option<int>)
    requires ScanTask(t) && ClockOk(now, lead) && TaskExpansion(t, now, lead, out)
    requires SeenNext(now, lead, out, before, next)
    ensures LowersTo(t, now, lead, before, next)
  {
    hide IsStart, LastDay;
    if next.Some? && next != before {
      var i :| 0 <= i < |out| && now < Begins(out[i].window) - lead == next.value;
      StartInCalendar(t, out[i].date, Begins(out[i].window));
      LookaheadIs(now, lead, Begins(out[i].window));
      assert FiresLater(t, now, lead, out[i].date, Begins(out[i].window));
    }
    forall date, begins | FiresLater(t, now, lead, date, begins)
      ensures next.Some? && next.value <= begins - lead
    {
      StartInCalendar(t, date, begins);
      LookaheadIs(now, lead, begins);
      assert InView(now, lead, begins);
      var i :| 0 <= i < |out| && out[i].date == date && Begins(out[i].window) == begins;
    }
  }

  // ----------------------------------------------------------------- the board

  /** A todo timed task of the seat. */
  ghost predicate Watched(tasks: Tasks, id: TaskId, seat: string) {
    id in tasks && tasks[id].when.Some? && tasks[id].state.Todo? && seat in tasks[id].assignees
  }

  predicate HeldUp(derived: Derived, id: TaskId) {
    id in derived.tasks && (derived.tasks[id].shown.Blocked? || derived.tasks[id].shown.ShownStuck?)
  }

  /** The start is due for the seat, of one of the first ids. */
  ghost predicate IsDue(tasks: Tasks, derived: Derived, seat: string, now: int, lead: int, ids: seq<TaskId>, e: StartDue)
    requires forall id <- tasks :: ScanTask(tasks[id])
  {
    && e.task in ids && Watched(tasks, e.task, seat)
    && DueOf(e.task, tasks[e.task], e.blocked, now, lead, e)
    && (e.blocked <==> e.task in derived.tasks && (derived.tasks[e.task].shown.Blocked? || derived.tasks[e.task].shown.ShownStuck?))
  }

  /** Off today's derivation a start is held up exactly if an existing prerequisite of its todo task is not done or called off. */
  lemma HeldUpIs(tasks: Tasks, today: int, derived: Derived, id: TaskId)
    requires IsDerived(tasks, today, derived)
    ensures HeldUp(derived, id) <==> id in tasks && tasks[id].state.Todo? && Waits(tasks, id)
  {
    hide IsNeededBy, IsStuck, Conflicts, Ranked, IsNext, HasWork, Waits;
    if id in tasks {
      assert RowMeans(tasks, today, id, derived.tasks[id]);
      StuckWaits(tasks, id);
    }
  }

  /** A stuck task waits: its first step towards the failure is a prerequisite that is not met. */
  lemma StuckWaits(tasks: Tasks, id: TaskId)
    ensures IsStuck(tasks, id) ==> id in tasks && tasks[id].state.Todo? && Waits(tasks, id)
  {
    if IsStuck(tasks, id) {
      var p :| FailPath(tasks, p) && p[0] == id;
      assert p[0 + 1] in tasks[p[0]].blockedBy && p[1] in tasks;
      assert |p| > 2 ==> tasks[p[1]].state.Todo?;
    }
  }

  /** `next` is the least later fire time of the seat's tasks among the first ids. */
  ghost predicate IsNextFire(tasks: Tasks, seat: string, now: int, lead: int, ids: seq<TaskId>, next: Option<int>)
    requires forall id <- tasks :: ScanTask(tasks[id])
  {
    && (next.Some? ==> exists id, date, begins :: id in ids && Watched(tasks, id, seat)
                         && FiresLater(tasks[id], now, lead, date, begins) && next.value == begins - lead)
    && (forall id, date, begins :: id in ids && Watched(tasks, id, seat) && FiresLater(tasks[id], now, lead, date, begins) ==>
          next.Some? && next.value <= begins - lead)
  }

  lemma NextStep(tasks: Tasks, seat: string, now: int, lead: int, ids: seq<TaskId>, id: TaskId, before: Option<int>, next: Option<int>)
    requires forall x <- tasks :: ScanTask(tasks[x])
    requires IsNextFire(tasks, seat, now, lead, ids, before)
    requires if Watched(tasks, id, seat) then LowersTo(tasks[id], now, lead, before, next) else next == before
    ensures IsNextFire(tasks, seat, now, lead, ids + [id], next)
  {
    hide FiresLater, ScanTask;
    if next.Some? {
      if next == before {
        var x, date, begins :| x in ids && Watched(tasks, x, seat)
                               && FiresLater(tasks[x], now, lead, date, begins) && next.value == begins - lead;
        assert x in ids + [id];
      } else {
        var date, begins :| FiresLater(tasks[id], now, lead, date, begins) && next.value == begins - lead;
        assert id in ids + [id];
      }
    }
  }

  lemma DueStep(tasks: Tasks, derived: Derived, seat: string, now: int, lead: int, ids: seq<TaskId>, id: TaskId,
                due: seq<StartDue>, part: seq<StartDue>)
    requires (forall x <- tasks :: ScanTask(tasks[x])) && id !in ids && Unrepeated(due) && Unrepeated(part)
    requires forall e :: e in due <==> IsDue(tasks, derived, seat, now, lead, ids, e)
    requires if Watched(tasks, id, seat)
             then forall e :: e in part <==> DueOf(id, tasks[id], HeldUp(derived, id), now, lead, e)
             else part == []
    ensures Unrepeated(due + part)
    ensures forall e :: e in due + part <==> IsDue(tasks, derived, seat, now, lead, ids + [id], e)
  {
    hide Fires, ScanTask;
    forall e
      ensures e in due + part <==> IsDue(tasks, derived, seat, now, lead, ids + [id], e)
    {
      assert e in due + part <==> e in due || e in part;
    }
    forall i, j | 0 <= i < |due| && 0 <= j < |part|
      ensures due[i] != part[j]
    {
      assert due[i] in due && part[j] in part;
    }
  }

  lemma OrderStep(tasks: Tasks, derived: Derived, seat: string, now: int, lead: int, ids: seq<TaskId>, i: nat,
                  due: seq<StartDue>, part: seq<StartDue>)
    requires (forall x <- tasks :: ScanTask(tasks[x])) && i < |ids| && ids == Ids(tasks.Keys) && ids[i] in tasks
    requires InDueOrder(due) && InDueOrder(part)
    requires forall e :: e in due <==> IsDue(tasks, derived, seat, now, lead, ids[..i], e)
    requires Watched(tasks, ids[i], seat) || part == []
    requires Watched(tasks, ids[i], seat) ==>
               forall e :: e in part <==> DueOf(ids[i], tasks[ids[i]], HeldUp(derived, ids[i]), now, lead, e)
    ensures InDueOrder(due + part)
  {
    hide Fires, ScanTask, Watched, HeldUp, Ids;
    forall a, b | 0 <= a < |due| && 0 <= b < |part|
      ensures DueBefore(due[a], part[b])
    {
      assert due[a] in due && part[b] in part;
      assert due[a].task in ids[..i];
      var k :| 0 <= k < i && ids[k] == due[a].task;
      assert ids[k] < ids[i];
    }
  }

  /** Some watched task's expansion overflows. */
  ghost predicate ScanOverflows(tasks: Tasks, seat: string, now: int, lead: int, ids: seq<TaskId>)
    requires forall id <- tasks :: ScanTask(tasks[id])
  {
    exists id :: id in ids && Watched(tasks, id, seat) && TaskOverflows(tasks[id], now, lead)
  }

  /** Due starts and the next fire time, over the board in id order; or a panic, of the clock or of a task that overflows. */
  method StartScan(tasks: Tasks, derived: Derived, seat: string, now: int, leadMin: nat)
    returns (res: Ran<(seq<StartDue>, Option<int>)>)
    requires forall id <- tasks :: ScanTask(tasks[id])
    requires leadMin <= 65535 && IsInstant(now)
    ensures res.Panicked? <==> !ClockOk(now, leadMin * 60) || ScanOverflows(tasks, seat, now, leadMin * 60, Ids(tasks.Keys))
    ensures res.Returned? ==>
              var (due, next) := res.value;
              && (forall e :: e in due <==> IsDue(tasks, derived, seat, now, leadMin * 60, Ids(tasks.Keys), e))
              && Unrepeated(due) && InDueOrder(due)
              && IsNextFire(tasks, seat, now, leadMin * 60, Ids(tasks.Keys), next)
  {
    hide IsDue, IsNextFire, LowersTo, ScanTask, Ids, DueOf, HeldUp, InDueOrder, TaskOverflows;
    var lead := leadMin * 60;
    if now - MISSED_HORIZON < MIN_DAY * DAY || now + lead > MAX_INSTANT {
      return Panicked;
    }
    assert ClockOk(now, lead);
    hide ClockOk;
    var due: seq<StartDue>, next: Option<int> := [], None;
    var ids := Ids(tasks.Keys);
    NothingScanned(tasks, derived, seat, now, lead);
    assert ids[..0] == [];
    for i := 0 to |ids|
      invariant Unrepeated(due) && InDueOrder(due) && forall e :: e in due <==> IsDue(tasks, derived, seat, now, lead, ids[..i], e)
      invariant IsNextFire(tasks, seat, now, lead, ids[..i], next) && !ScanOverflows(tasks, seat, now, lead, ids[..i])
    {
      var id := ids[i];
      assert id in tasks.Keys && id !in ids[..i];
      assert ids[..i + 1] == ids[..i] + [id];
      var t := tasks[id];
      var part: seq<StartDue>, later := [], next;
      if t.when.Some? && t.state.Todo? && seat in t.assignees {
        var ran := ScanTaskStarts(id, t, HeldUp(derived, id), now, lead, next);
        if ran.Panicked? {
          assert id in ids && Watched(tasks, id, seat);
          return Panicked;
        }
        part, later := ran.value.0, ran.value.1;
      }
      assert InDueOrder([]) by { NothingScanned(tasks, derived, seat, now, lead); }
      DueStep(tasks, derived, seat, now, lead, ids[..i], id, due, part);
      OrderStep(tasks, derived, seat, now, lead, ids, i, due, part);
      NextStep(tasks, seat, now, lead, ids[..i], id, next, later);
      due, next := due + part, later;
    }
    assert ids[..|ids|] == ids;
    return Returned((due, next));
  }

  lemma NothingScanned(tasks: Tasks, derived: Derived, seat: string, now: int, lead: int)
    requires forall id <- tasks :: ScanTask(tasks[id])
    ensures forall e :: !IsDue(tasks, derived, seat, now, lead, [], e)
    ensures IsNextFire(tasks, seat, now, lead, [], None) && InDueOrder([])
  {
  }

  /** Every folded board can be scanned. */
  lemma FoldIsScannable(applied: seq<Payload>, seats: set<string>, id: TaskId)
    requires id in KanbanFold.Fold(applied, seats).tasks
    ensures ScanTask(KanbanFold.Fold(applied, seats).tasks[id])
  {
    hide KanbanFold.Fold, ValidWhen, ValidRepeat;
    KanbanFold.FoldIsWellFormed(applied, seats);
  }

  // ----------------------------------------------------- an overflow on a board

  const SEAT: string := "s"

  /** Wednesdays from 0000-01-05 on, at the interval that overflows. */
  const WEDNESDAYS: Repeat := Repeat(Weekly, LAST_WEEK, [2], RepeatEnd.Open)

  const OVERFLOW_FIELDS: seq<Field> := [Title("t"), Assignees([SEAT]), WhenIs(Some(AllDay(4, 4))), RepeatIs(Some(WEDNESDAYS))]

  const OVERFLOW_ACT: Act := Add(Some(0), Some(SEAT), OVERFLOW_FIELDS)

  /** The task that act adds. */
  lemma OverflowTask(rev: nat)
    ensures var t := SetFields(NewTask(SEAT, rev), OVERFLOW_FIELDS);
            && t == NewTask(SEAT, rev).(title := "t", assignees := [SEAT], when := Some(AllDay(4, 4)), repeat := Some(WEDNESDAYS))
  {
    var fs := OVERFLOW_FIELDS;
    assert fs[..3] == [Title("t"), Assignees([SEAT]), WhenIs(Some(AllDay(4, 4)))];
    assert fs[..3][..2] == [Title("t"), Assignees([SEAT])];
    assert fs[..3][..2][..1] == [Title("t")];
    assert fs[..3][..2][..1][..0] == [];
    assert SetFields(NewTask(SEAT, rev), []) == NewTask(SEAT, rev);
    assert SetFields(NewTask(SEAT, rev), [Title("t")]) == NewTask(SEAT, rev).(title := "t");
    assert SetFields(NewTask(SEAT, rev), fs[..3][..2]) == NewTask(SEAT, rev).(title := "t", assignees := [SEAT]);
    assert SetFields(NewTask(SEAT, rev), fs[..3]) == NewTask(SEAT, rev).(title := "t", assignees := [SEAT], when := Some(AllDay(4, 4)));
  }

  lemma TitleIsShaped()
    ensures FieldShape(Title("t"))
  {
    var s := "t";
    assert s[0] == 't' && !White(s[0]);
  }

  lemma SeatIsShaped()
    ensures FieldShape(Assignees([SEAT]))
  {
    assert SEAT != [];
  }

  lemma RuleIsShaped()
    ensures FieldShape(WhenIs(Some(AllDay(4, 4)))) && FieldShape(RepeatIs(Some(WEDNESDAYS)))
  {
    hide ValidRepeat, Occurs, LastOfWeek, OneLine, Trimmed, Unrepeated;
    WednesdaysEnd();
  }

  lemma OverflowFieldsAreShaped()
    ensures forall i :: 0 <= i < |OVERFLOW_FIELDS| ==> FieldShape(OVERFLOW_FIELDS[i])
  {
    hide FieldShape;
    TitleIsShaped();
    SeatIsShaped();
    RuleIsShaped();
  }

  lemma OverflowFieldsAreNamed()
    ensures NamedAfter(OVERFLOW_FIELDS) == None
    ensures OVERFLOW_FIELDS[0].Title? && OVERFLOW_FIELDS[1].Assignees? && OVERFLOW_FIELDS[2].WhenIs? && OVERFLOW_FIELDS[2].when.Some?
    ensures forall i :: 0 <= i < |OVERFLOW_FIELDS| ==> !OVERFLOW_FIELDS[i].BlockedBy?
  {
    var fs := OVERFLOW_FIELDS;
    assert NamedAfter(fs[..3][..2][..1]) == None;
    assert NamedAfter(fs[..3][..2]) == None;
    assert NamedAfter(fs[..3]) == None;
  }

  lemma OverflowActIsShaped()
    ensures ActShape(OVERFLOW_ACT)
    ensures (exists i :: 0 <= i < |OVERFLOW_FIELDS| && OVERFLOW_FIELDS[i].Title?) && (exists i :: 0 <= i < |OVERFLOW_FIELDS| && OVERFLOW_FIELDS[i].Assignees?)
  {
    hide FieldShape, NamedAfter, NamedDue;
    OverflowFieldsAreShaped();
    OverflowFieldsAreNamed();
  }

  lemma AloneIsAcyclic(t: Task)
    requires t.blockedBy == []
    ensures TaskGraph.Acyclic(Links(map[0 := t]))
  {
    var g := Links(map[0 := t]);
    forall x
      ensures !TaskGraph.OnCycle(g, x)
    {
      forall p | TaskGraph.PathFromTo(g, p, x, x)
        ensures |p| < 2
      {
        if |p| >= 2 { TaskGraph.EdgeAt(g, p, 0); }
      }
    }
  }

  lemma OverflowBoardIsWellFormed(t: Task)
    requires t == NewTask(SEAT, 1).(title := "t", assignees := [SEAT], when := Some(AllDay(4, 4)), repeat := Some(WEDNESDAYS))
    requires KanbanFold.Shaped(t) && KanbanFold.Recorded(t, 1)
    ensures KanbanFold.WellFormed(BoardState(1, map[0 := t]), {SEAT})
  {
    hide KanbanFold.Shaped, KanbanFold.Recorded, Occurs, TaskGraph.Acyclic, Links;
    AloneIsAcyclic(t);
    assert KanbanFold.Linked(map[0 := t], 0, t, {SEAT});
  }

  lemma OverflowActApplies()
    ensures ApplyActs(map[], {}, [OVERFLOW_ACT], 1) == Ok((map[0 := SetFields(NewTask(SEAT, 1), OVERFLOW_FIELDS)], {0}))
    ensures ValidRepeats(EMPTY.tasks)
  {
    hide SetFields, NewTask;
    var t, none: Tasks := SetFields(NewTask(SEAT, 1), OVERFLOW_FIELDS), map[];
    var some, acts, nobody: set<TaskId> := none[0 := t], [OVERFLOW_ACT], {};
    assert some == map[0 := t] && nobody + {0} == {0};
    assert ApplyAct(none, acts[0], 1) == Ok((some, 0));
    assert acts[1..] == [];
    assert ApplyActs(some, {0}, acts[1..], 1) == Ok((some, {0}));
    assert ApplyActs(none, nobody, acts, 1) == ApplyActs(some, nobody + {0}, acts[1..], 1);
  }

  lemma FoldOfOne(p: Payload, seats: set<string>)
    requires ValidRepeats(EMPTY.tasks)
    ensures KanbanFold.Fold([p], seats) == KanbanFold.FoldOne(EMPTY, p, seats).0
  {
    hide KanbanFold.FoldOne;
    assert [p][..0] == [];
    assert KanbanFold.FoldOnto(EMPTY, [], seats) == EMPTY;
  }

  /** Folding that one act gives a board with the task. */
  lemma OverflowIsFolded()
    ensures var b := KanbanFold.Fold([Ops(Some([OVERFLOW_ACT]))], {SEAT});
            b.tasks == map[0 := SetFields(NewTask(SEAT, 1), OVERFLOW_FIELDS)]
  {
    hide ActShape, FieldShape, SetFields, NewTask, KanbanFold.WellFormed, KanbanFold.Shaped, KanbanFold.Recorded, KanbanFold.ApplyChangeset, KanbanFold.Fold, ApplyActs, ValidRepeats;
    var acts, t := [OVERFLOW_ACT], SetFields(NewTask(SEAT, 1), OVERFLOW_FIELDS);
    OverflowActIsShaped();
    OverflowFieldsAreShaped();
    OverflowActApplies();
    OverflowTask(1);
    KanbanFold.AddedTask(SEAT, OVERFLOW_FIELDS, 1);
    OverflowBoardIsWellFormed(t);
    KanbanFold.EmptyWellFormed({SEAT});
    KanbanFold.AcceptedIffWellFormed(EMPTY, acts, {SEAT}, 1);
    FoldOfOne(Ops(Some(acts)), {SEAT});
  }

  lemma OverflowTaskOverflows(t: Task, now: int, lead: int)
    requires t.when == Some(AllDay(4, 4)) && t.repeat == Some(WEDNESDAYS) && ScanTask(t) && LastDay(now, lead) >= 4
    ensures TaskOverflows(t, now, lead)
  {
    hide ScanTask, WalkFrom, Occurs, LastDay, FirstDay, LastOfWeek;
    WednesdaysOverflow(4, 5);
    WednesdaysEnd();
  }

  /** One changeset makes the scan of its seat panic at every clock whose lookahead reaches the task's start. */
  lemma OverflowIsReachable(now: int, lead: int)
    requires LastDay(now, lead) >= 4
    ensures var tasks := KanbanFold.Fold([Ops(Some([OVERFLOW_ACT]))], {SEAT}).tasks;
            && (forall id <- tasks :: ScanTask(tasks[id]))
            && ScanOverflows(tasks, SEAT, now, lead, Ids(tasks.Keys))
  {
    hide KanbanFold.Fold, SetFields, NewTask, ScanTask, Ids, LastDay, TaskOverflows, ValidRepeats;
    var ps := [Ops(Some([OVERFLOW_ACT]))];
    var tasks := KanbanFold.Fold(ps, {SEAT}).tasks;
    OverflowIsFolded();
    OverflowTask(1);
    forall id <- tasks
      ensures ScanTask(tasks[id])
    {
      FoldIsScannable(ps, {SEAT}, id);
    }
    NewTaskIsOpen();
    OverflowTaskOverflows(tasks[0], now, lead);
    assert 0 in Ids(tasks.Keys) && Watched(tasks, 0, SEAT);
  }

  lemma NewTaskIsOpen()
    ensures NewTask(SEAT, 1).state.Todo?
  {
  }

  /** The start is the one hit of its week, and it occurs. */
  lemma WednesdaysEnd()
    ensures ValidRepeat(WEDNESDAYS) && LastOfWeek(4, WEDNESDAYS) == 4 && Occurs(4, WEDNESDAYS, 4)
  {
    hide Rank;
    StartIsFirst(4, WEDNESDAYS);
    WednesdaysOverflow(4, 5);
    LastIsHit(4, WEDNESDAYS);
  }
}
