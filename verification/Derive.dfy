/**
 What the board means on one day: needed-by dates, flags, priority and the
 next work per seat. Each part is stated over chains of links and computed
 by one pass over the dependents-first order.
 */
module Derive {
  import opened Prelude
  import opened Sorting
  import opened Windows
  import opened Board
  import opened KanbanDates
  import TaskGraph

  // --------------------------------------------------------------- needed by

  /** A chain of open tasks, each a prerequisite for the next. */
  ghost predicate OpenChain(tasks: Tasks, p: seq<TaskId>) {
    && |p| >= 1
    && (forall i :: 0 <= i < |p| ==> p[i] in tasks && (tasks[p[i]].state.Todo? || tasks[p[i]].state.Wip?))
    && (forall i :: 0 <= i < |p| - 1 ==> DependsOn(tasks, p[i + 1], p[i]))
  }

  ghost predicate ChainFrom(tasks: Tasks, p: seq<TaskId>, id: TaskId) {
    OpenChain(tasks, p) && p[0] == id
  }

  ghost function ChainDue(tasks: Tasks, p: seq<TaskId>): Option<int>
    requires OpenChain(tasks, p)
  {
    tasks[p[|p| - 1]].due
  }

  /** `nb` is the least deadline at the end of any chain of open dependents. */
  ghost predicate IsNeededBy(tasks: Tasks, id: TaskId, nb: Option<int>) {
    && (nb.Some? ==> exists p :: ChainFrom(tasks, p, id) && ChainDue(tasks, p) == nb)
    && (forall p :: ChainFrom(tasks, p, id) && ChainDue(tasks, p).Some? ==> nb.Some? && nb.value <= ChainDue(tasks, p).value)
  }

  function Get(m: map<TaskId, int>, id: TaskId): Option<int> {
    if id in m then Some(m[id]) else None
  }

  function Earlier(a: Option<int>, b: Option<int>): Option<int> {
    if a.None? then b else if b.None? then a else if b.value < a.value then b else a
  }

  /** The least of `due` and what the open ones among `deps` are needed by. */
  function Earliest(tasks: Tasks, deps: seq<TaskId>, needed: map<TaskId, int>, due: Option<int>): (r: Option<int>)
    ensures due.Some? ==> r.Some? && r.value <= due.value
    ensures forall d :: d in deps && d in tasks && IsOpen(tasks[d]) && d in needed ==> r.Some? && r.value <= needed[d]
    ensures r.Some? ==> r == due || exists d :: d in deps && d in tasks && IsOpen(tasks[d]) && d in needed && needed[d] == r.value
  {
    if deps == [] then due
    else
      var n := |deps| - 1;
      assert deps == deps[..n] + [deps[n]];
      var rest := Earliest(tasks, deps[..n], needed, due);
      var d := deps[n];
      if d in tasks && IsOpen(tasks[d]) then Earlier(rest, Get(needed, d)) else rest
  }

  lemma ChainTail(tasks: Tasks, p: seq<TaskId>)
    requires OpenChain(tasks, p) && |p| >= 2
    ensures ChainFrom(tasks, p[1..], p[1]) && ChainDue(tasks, p[1..]) == ChainDue(tasks, p)
  {
  }

  lemma ChainCons(tasks: Tasks, id: TaskId, p: seq<TaskId>)
    requires OpenChain(tasks, p) && id in tasks && IsOpen(tasks[id]) && DependsOn(tasks, p[0], id)
    ensures ChainFrom(tasks, [id] + p, id) && ChainDue(tasks, [id] + p) == ChainDue(tasks, p)
  {
    var q := [id] + p;
    forall i | 0 <= i < |q| - 1
      ensures DependsOn(tasks, q[i + 1], q[i])
    {
      if i > 0 { assert DependsOn(tasks, p[i - 1 + 1], p[i - 1]); }
    }
  }

  lemma ClosedIsNotNeeded(tasks: Tasks, id: TaskId)
    requires id in tasks && !IsOpen(tasks[id])
    ensures IsNeededBy(tasks, id, None)
  {
  }

  /** One task is decided once its dependents are. */
  lemma NeededStep(tasks: Tasks, id: TaskId, needed: map<TaskId, int>)
    requires id in tasks && IsOpen(tasks[id])
    requires forall d :: DependsOn(tasks, d, id) && IsOpen(tasks[d]) ==> IsNeededBy(tasks, d, Get(needed, d))
    ensures IsNeededBy(tasks, id, Earliest(tasks, DependentsOf(tasks, id), needed, tasks[id].due))
  {
    hide DependentsOf, IsNeededBy;
    var deps := DependentsOf(tasks, id);
    var nb := Earliest(tasks, deps, needed, tasks[id].due);
    forall p | ChainFrom(tasks, p, id) && ChainDue(tasks, p).Some?
      ensures nb.Some? && nb.value <= ChainDue(tasks, p).value
    {
      if |p| >= 2 {
        ChainTail(tasks, p);
        NeededBound(tasks, p[1], Get(needed, p[1]), p[1..]);
        assert p[1] in deps;
      }
    }
    if nb.Some? {
      if nb == tasks[id].due {
        assert ChainFrom(tasks, [id], id);
      } else {
        var d :| d in deps && d in tasks && IsOpen(tasks[d]) && d in needed && needed[d] == nb.value;
        var p := NeededWitness(tasks, d, Get(needed, d));
        ChainCons(tasks, id, p);
      }
    }
    NeededIntro(tasks, id, nb);
  }

  lemma NeededBound(tasks: Tasks, id: TaskId, nb: Option<int>, p: seq<TaskId>)
    requires IsNeededBy(tasks, id, nb) && ChainFrom(tasks, p, id) && ChainDue(tasks, p).Some?
    ensures nb.Some? && nb.value <= ChainDue(tasks, p).value
  {
  }

  lemma NeededWitness(tasks: Tasks, id: TaskId, nb: Option<int>) returns (p: seq<TaskId>)
    requires IsNeededBy(tasks, id, nb) && nb.Some?
    ensures ChainFrom(tasks, p, id) && ChainDue(tasks, p) == nb
  {
    p :| ChainFrom(tasks, p, id) && ChainDue(tasks, p) == nb;
  }

  lemma NeededIntro(tasks: Tasks, id: TaskId, nb: Option<int>)
    requires nb.Some? ==> exists p :: ChainFrom(tasks, p, id) && ChainDue(tasks, p) == nb
    requires forall p :: ChainFrom(tasks, p, id) && ChainDue(tasks, p).Some? ==> nb.Some? && nb.value <= ChainDue(tasks, p).value
    ensures IsNeededBy(tasks, id, nb)
  {
  }

  lemma NeededUnique(tasks: Tasks, id: TaskId, a: Option<int>, b: Option<int>)
    requires IsNeededBy(tasks, id, a) && IsNeededBy(tasks, id, b)
    ensures a == b
  {
    if a.Some? {
      var p := NeededWitness(tasks, id, a);
      NeededBound(tasks, id, b, p);
    }
    if b.Some? {
      var p := NeededWitness(tasks, id, b);
      NeededBound(tasks, id, a, p);
    }
  }

  /** The pass over the dependents-first order. */
  method NeededDates(tasks: Tasks, dependents: DependentMap, order: seq<TaskId>) returns (needed: map<TaskId, int>)
    requires forall b <- tasks :: Entry(dependents, b) == DependentsOf(tasks, b)
    requires DependentsFirst(tasks, order)
    ensures forall i :: 0 <= i < |order| ==> IsNeededBy(tasks, order[i], Get(needed, order[i]))
    ensures forall id <- needed :: id in order
  {
    hide IsNeededBy, DependentsOf, Entry, Earliest;
    needed := map[];
    for k := 0 to |order|
      invariant forall i :: 0 <= i < k ==> IsNeededBy(tasks, order[i], Get(needed, order[i]))
      invariant forall id <- needed :: id in order[..k]
    {
      var id := order[k];
      ghost var before := needed;
      assert id !in order[..k];
      if IsOpen(tasks[id]) {
        forall d | DependsOn(tasks, d, id)
          ensures IsNeededBy(tasks, d, Get(needed, d))
        {
          assert d in order[..k];
          var i :| 0 <= i < k && order[i] == d;
        }
        NeededStep(tasks, id, needed);
        var nb := Earliest(tasks, Entry(dependents, id), needed, tasks[id].due);
        if nb.Some? { needed := needed[id := nb.value]; }
      } else {
        ClosedIsNotNeeded(tasks, id);
      }
      assert order[..k + 1] == order[..k] + [id];
      assert forall i :: 0 <= i < k ==> Get(needed, order[i]) == Get(before, order[i]);
    }
  }

  // -------------------------------------------------------------------- stuck

  /** A path of todo tasks to a failed prerequisite. */
  ghost predicate FailPath(tasks: Tasks, p: seq<TaskId>) {
    && |p| >= 2
    && (forall i :: 0 <= i < |p| ==> p[i] in tasks)
    && (forall i :: 0 <= i < |p| - 1 ==> tasks[p[i]].state.Todo? && p[i + 1] in tasks[p[i]].blockedBy)
    && tasks[p[|p| - 1]].state.Fail?
  }

  ghost predicate IsStuck(tasks: Tasks, id: TaskId) {
    exists p :: FailPath(tasks, p) && p[0] == id
  }

  predicate WaitsOnFail(tasks: Tasks, stuck: set<TaskId>, links: seq<TaskId>) {
    exists i :: 0 <= i < |links| && ((links[i] in tasks && tasks[links[i]].state.Fail?) || links[i] in stuck)
  }

  lemma FailPathTail(tasks: Tasks, p: seq<TaskId>)
    requires FailPath(tasks, p) && |p| > 2
    ensures FailPath(tasks, p[1..])
  {
  }

  lemma FailPathCons(tasks: Tasks, id: TaskId, p: seq<TaskId>)
    requires FailPath(tasks, p) && id in tasks && tasks[id].state.Todo? && p[0] in tasks[id].blockedBy
    ensures FailPath(tasks, [id] + p)
  {
    var q := [id] + p;
    forall i | 0 <= i < |q| - 1
      ensures tasks[q[i]].state.Todo? && q[i + 1] in tasks[q[i]].blockedBy
    {
      if i > 0 { assert p[i - 1 + 1] in tasks[p[i - 1]].blockedBy; }
    }
  }

  lemma StuckStep(tasks: Tasks, id: TaskId, stuck: set<TaskId>)
    requires id in tasks && tasks[id].state.Todo? && stuck <= tasks.Keys
    requires forall b :: DependsOn(tasks, id, b) ==> (b in stuck <==> IsStuck(tasks, b))
    ensures WaitsOnFail(tasks, stuck, tasks[id].blockedBy) <==> IsStuck(tasks, id)
  {
    var links := tasks[id].blockedBy;
    if i :| 0 <= i < |links| && ((links[i] in tasks && tasks[links[i]].state.Fail?) || links[i] in stuck) {
      var b := links[i];
      if b in tasks && tasks[b].state.Fail? {
        assert FailPath(tasks, [id, b]);
      } else {
        assert DependsOn(tasks, id, b);
        var p :| FailPath(tasks, p) && p[0] == b;
        FailPathCons(tasks, id, p);
      }
    }
    if IsStuck(tasks, id) {
      var p :| FailPath(tasks, p) && p[0] == id;
      var b := p[1];
      assert p[0 + 1] in tasks[p[0]].blockedBy;
      assert DependsOn(tasks, id, b);
      if |p| > 2 {
        FailPathTail(tasks, p);
        assert IsStuck(tasks, b);
      }
      var j :| 0 <= j < |links| && links[j] == b;
    }
  }

  lemma NotTodoNotStuck(tasks: Tasks, id: TaskId)
    requires id in tasks && !tasks[id].state.Todo?
    ensures !IsStuck(tasks, id)
  {
  }

  /** The pass over the reversed order: prerequisites first. */
  method StuckTasks(tasks: Tasks, order: seq<TaskId>) returns (stuck: set<TaskId>)
    requires DependentsFirst(tasks, order) && forall x <- tasks :: x in order
    ensures forall id <- tasks :: id in stuck <==> IsStuck(tasks, id)
    ensures stuck <= tasks.Keys
  {
    hide IsStuck, WaitsOnFail;
    stuck := {};
    for k := |order| downto 0
      invariant stuck <= tasks.Keys && forall x :: x in stuck ==> x in order[k..]
      invariant forall i :: k <= i < |order| ==> (order[i] in stuck <==> IsStuck(tasks, order[i]))
    {
      var id := order[k];
      assert order[k..] == [id] + order[k + 1..];
      assert id !in order[k + 1..];
      if tasks[id].state.Todo? {
        forall b | DependsOn(tasks, id, b)
          ensures b in stuck <==> IsStuck(tasks, b)
        {
          var j :| 0 <= j < |order| && order[j] == b;
          assert id in order[..j];
        }
        StuckStep(tasks, id, stuck);
        if WaitsOnFail(tasks, stuck, tasks[id].blockedBy) { stuck := stuck + {id}; }
      } else {
        NotTodoNotStuck(tasks, id);
      }
    }
    forall id <- tasks
      ensures id in stuck <==> IsStuck(tasks, id)
    {
      var i :| 0 <= i < |order| && order[i] == id;
    }
  }

  // ------------------------------------------------------------ the whole view

  datatype Shown = ShownStuck | Blocked | Scheduled | Later | Open | ShownWip | ShownSuccess | ShownFail | ShownCancelled

  datatype TaskDerived = TaskDerived(
    shown: Shown,
    neededBy: Option<int>,
    overdue: bool,
    dateConflict: bool,
    stuck: bool,
    startedOnReopened: bool,
    prerequisiteFor: seq<TaskId>)

  datatype Derived = Derived(tasks: map<TaskId, TaskDerived>, priority: seq<TaskId>, next: map<string, seq<TaskId>>)

  predicate Unmet(tasks: Tasks, t: Task) {
    exists i :: 0 <= i < |t.blockedBy| && t.blockedBy[i] in tasks && !IsMet(tasks[t.blockedBy[i]].state)
  }

  predicate TimedConflict(tasks: Tasks, t: Task, deps: seq<TaskId>) {
    t.when.Some? && exists i :: 0 <= i < |deps| && deps[i] in tasks && IsOpen(tasks[deps[i]])
                                && tasks[deps[i]].when.Some? && Ends(t.when.value) > Begins(tasks[deps[i]].when.value)
  }

  /** One task's row, from its decided date and flag. */
  function Row(tasks: Tasks, t: Task, nb: Option<int>, stuck: bool, deps: seq<TaskId>, today: int): TaskDerived {
    var blocked := Unmet(tasks, t);
    var shown := match t.state
      case Todo =>
        if stuck then ShownStuck else if blocked then Blocked else if t.when.Some? then Scheduled
        else if t.after.Some? && t.after.value > today then Later else Open
      case Wip => ShownWip
      case Success => ShownSuccess
      case Fail => ShownFail
      case Cancelled => ShownCancelled;
    TaskDerived(
      shown, nb,
      IsOpen(t) && nb.Some? && nb.value < today,
      IsOpen(t) && ((nb.Some? && ((t.due.Some? && t.due.value > nb.value) || (t.after.Some? && t.after.value > nb.value)))
                    || TimedConflict(tasks, t, deps)),
      stuck,
      t.state.Wip? && blocked,
      deps)
  }

  /** Work in progress first, then by date, dateless last, then by id. */
  predicate Sooner(wip: bool, nb: Option<int>, id: TaskId, wip': bool, nb': Option<int>, id': TaskId) {
    if wip != wip' then wip
    else if nb.Some? != nb'.Some? then nb.Some?
    else if nb.Some? && nb.value != nb'.value then nb.value < nb'.value
    else id <= id'
  }

  predicate Before(tasks: Tasks, needed: map<TaskId, Option<int>>, a: TaskId, b: TaskId) {
    Sooner(a in tasks && tasks[a].state.Wip?, if a in needed then needed[a] else None, a,
           b in tasks && tasks[b].state.Wip?, if b in needed then needed[b] else None, b)
  }

  predicate Prioritized(tasks: Tasks, id: TaskId) {
    id in tasks && IsOpen(tasks[id]) && !IsSeries(tasks[id])
  }

  function Dates(d: map<TaskId, TaskDerived>): map<TaskId, Option<int>> {
    map id | id in d :: d[id].neededBy
  }

  function Startable(tasks: Tasks, t: Task, today: int): bool {
    t.state.Todo? && !Unmet(tasks, t) && !(t.after.Some? && t.after.value > today)
  }

  predicate Taken(tasks: Tasks, id: TaskId, wipPass: bool, today: int) {
    id in tasks && (if wipPass then tasks[id].state.Wip? else Startable(tasks, tasks[id], today))
  }

  /** The seat's tasks one pass takes, in priority order. */
  function PassFor(tasks: Tasks, ids: seq<TaskId>, wipPass: bool, today: int, seat: string): seq<TaskId> {
    if ids == [] then []
    else
      var n := |ids| - 1;
      PassFor(tasks, ids[..n], wipPass, today, seat)
      + (if Taken(tasks, ids[n], wipPass, today) && seat in tasks[ids[n]].assignees then [ids[n]] else [])
  }

  ghost predicate Employed(tasks: Tasks, ids: seq<TaskId>, seat: string) {
    exists i :: 0 <= i < |ids| && ids[i] in tasks && seat in tasks[ids[i]].assignees
  }

  // ----------------------------------------------------- what a derivation means

  /** Some existing prerequisite is neither done nor called off. */
  ghost predicate Waits(tasks: Tasks, id: TaskId) {
    id in tasks && exists b :: b in tasks[id].blockedBy && b in tasks && !tasks[b].state.Success? && !tasks[b].state.Cancelled?
  }

  ghost predicate IsShown(tasks: Tasks, today: int, id: TaskId, shown: Shown)
    requires id in tasks
  {
    var t := tasks[id];
    var free := t.state.Todo? && !IsStuck(tasks, id) && !Waits(tasks, id);
    && (shown.ShownStuck? <==> IsStuck(tasks, id))
    && (shown.Blocked? <==> t.state.Todo? && !IsStuck(tasks, id) && Waits(tasks, id))
    && (shown.Scheduled? <==> free && t.when.Some?)
    && (shown.Later? <==> free && t.when.None? && t.after.Some? && today < t.after.value)
    && (shown.Open? <==> free && t.when.None? && (t.after.Some? ==> t.after.value <= today))
    && (shown.ShownWip? <==> t.state.Wip?)
    && (shown.ShownSuccess? <==> t.state.Success?)
    && (shown.ShownFail? <==> t.state.Fail?)
    && (shown.ShownCancelled? <==> t.state.Cancelled?)
  }

  /** The task's appointment ends after that of an open task it is a prerequisite for begins. */
  ghost predicate RunsInto(tasks: Tasks, id: TaskId) {
    && id in tasks && tasks[id].when.Some?
    && exists d :: DependsOn(tasks, d, id) && (tasks[d].state.Todo? || tasks[d].state.Wip?)
                   && tasks[d].when.Some? && Begins(tasks[d].when.value) < Ends(tasks[id].when.value)
  }

  /** An open task that is promised or may begin after it is needed, or that runs into a dependent. */
  ghost predicate Conflicts(tasks: Tasks, id: TaskId, nb: Option<int>)
    requires id in tasks
  {
    var t := tasks[id];
    && (t.state.Todo? || t.state.Wip?)
    && (|| (nb.Some? && t.due.Some? && nb.value < t.due.value)
        || (nb.Some? && t.after.Some? && nb.value < t.after.value)
        || RunsInto(tasks, id))
  }

  ghost predicate RowMeans(tasks: Tasks, today: int, id: TaskId, row: TaskDerived)
    requires id in tasks
  {
    var t := tasks[id];
    && IsNeededBy(tasks, id, row.neededBy)
    && (row.stuck <==> IsStuck(tasks, id))
    && IsShown(tasks, today, id, row.shown)
    && (row.overdue <==> (t.state.Todo? || t.state.Wip?) && row.neededBy.Some? && row.neededBy.value < today)
    && (row.dateConflict <==> Conflicts(tasks, id, row.neededBy))
    && (row.startedOnReopened <==> t.state.Wip? && Waits(tasks, id))
    && Ascending(row.prerequisiteFor) && (forall d :: d in row.prerequisiteFor <==> DependsOn(tasks, d, id))
  }

  /** Work in progress before todo, then dated before dateless, the earlier date, the smaller id. */
  ghost predicate Ahead(tasks: Tasks, rows: map<TaskId, TaskDerived>, a: TaskId, b: TaskId) {
    && a in tasks && b in tasks && a in rows && b in rows
    && (|| (tasks[a].state.Wip? && !tasks[b].state.Wip?)
        || (&& tasks[a].state.Wip? == tasks[b].state.Wip?
            && (|| (rows[a].neededBy.Some? && rows[b].neededBy.None?)
                || (rows[a].neededBy.Some? && rows[b].neededBy.Some? && rows[a].neededBy.value < rows[b].neededBy.value)
                || (rows[a].neededBy == rows[b].neededBy && a < b))))
  }

  ghost predicate Ranked(tasks: Tasks, rows: map<TaskId, TaskDerived>, ids: seq<TaskId>) {
    forall i, j :: 0 <= i < j < |ids| ==> Ahead(tasks, rows, ids[i], ids[j])
  }

  /** An open task that is no series. */
  ghost predicate IsWork(tasks: Tasks, id: TaskId) {
    id in tasks && (tasks[id].state.Todo? || tasks[id].state.Wip?) && tasks[id].repeat.None?
  }

  /** Work the seat can do now: begun, or neither waiting nor put off past today. */
  ghost predicate IsNext(tasks: Tasks, today: int, seat: string, id: TaskId) {
    && IsWork(tasks, id) && seat in tasks[id].assignees
    && (tasks[id].state.Wip? || (!Waits(tasks, id) && (tasks[id].after.Some? ==> tasks[id].after.value <= today)))
  }

  ghost predicate HasWork(tasks: Tasks, seat: string) {
    exists id :: IsWork(tasks, id) && seat in tasks[id].assignees
  }

  /** What a derivation means. */
  ghost predicate IsDerived(tasks: Tasks, today: int, d: Derived) {
    && d.tasks.Keys == tasks.Keys
    && (forall id <- tasks :: RowMeans(tasks, today, id, d.tasks[id]))
    && (forall id :: id in d.priority <==> IsWork(tasks, id))
    && Ranked(tasks, d.tasks, d.priority)
    && (forall seat :: seat in d.next <==> HasWork(tasks, seat))
    && (forall seat <- d.next ::
          && (forall id :: id in d.next[seat] <==> IsNext(tasks, today, seat, id))
          && Ranked(tasks, d.tasks, d.next[seat]))
  }

  // ------------------------------------------------------------ how it is computed

  lemma BeforeIsTotal(tasks: Tasks, needed: map<TaskId, Option<int>>)
    ensures TotalPreorder((a: TaskId, b: TaskId) => Before(tasks, needed, a, b))
    ensures Antisymmetric((a: TaskId, b: TaskId) => Before(tasks, needed, a, b))
  {
  }

  function PriorityIds(tasks: Tasks, ids: seq<TaskId>): (r: seq<TaskId>)
    ensures forall x :: x in r <==> x in ids && Prioritized(tasks, x)
  {
    if ids == [] then []
    else
      var n := |ids| - 1;
      assert ids == ids[..n] + [ids[n]];
      PriorityIds(tasks, ids[..n]) + (if Prioritized(tasks, ids[n]) then [ids[n]] else [])
  }

  lemma {:induction false} PriorityNoRepeats(tasks: Tasks, ids: seq<TaskId>)
    requires Unrepeated(ids)
    ensures Unrepeated(PriorityIds(tasks, ids))
  {
    if ids != [] {
      var n := |ids| - 1;
      PriorityNoRepeats(tasks, ids[..n]);
      assert ids[n] !in ids[..n];
    }
  }

  lemma TimedConflictIs(tasks: Tasks, id: TaskId)
    requires id in tasks
    ensures TimedConflict(tasks, tasks[id], DependentsOf(tasks, id)) <==> RunsInto(tasks, id)
  {
    hide DependentsOf;
    var deps := DependentsOf(tasks, id);
    if RunsInto(tasks, id) {
      var d :| DependsOn(tasks, d, id) && (tasks[d].state.Todo? || tasks[d].state.Wip?)
               && tasks[d].when.Some? && Begins(tasks[d].when.value) < Ends(tasks[id].when.value);
      assert d in deps;
      var i :| 0 <= i < |deps| && deps[i] == d;
    }
    if TimedConflict(tasks, tasks[id], deps) {
      var i :| 0 <= i < |deps| && deps[i] in tasks && IsOpen(tasks[deps[i]])
               && tasks[deps[i]].when.Some? && Ends(tasks[id].when.value) > Begins(tasks[deps[i]].when.value);
      assert deps[i] in deps;
    }
  }

  /** The row computed from the decided date and flag has the meaning. */
  lemma RowIs(tasks: Tasks, id: TaskId, nb: Option<int>, stuck: bool, today: int)
    requires id in tasks && IsNeededBy(tasks, id, nb) && (stuck <==> IsStuck(tasks, id))
    ensures RowMeans(tasks, today, id, Row(tasks, tasks[id], nb, stuck, DependentsOf(tasks, id), today))
  {
    hide DependentsOf, IsNeededBy, IsStuck, TimedConflict, RunsInto, Unmet, Waits;
    DependentsAscend(tasks, id);
    TimedConflictIs(tasks, id);
    UnmetIsWaits(tasks, id);
    if !tasks[id].state.Todo? { NotTodoNotStuck(tasks, id); }
  }

  method DeriveRows(tasks: Tasks, dependents: DependentMap, needed: map<TaskId, int>, stuck: set<TaskId>, today: int)
    returns (rows: map<TaskId, TaskDerived>)
    requires forall b <- tasks :: Entry(dependents, b) == DependentsOf(tasks, b)
    requires forall id <- tasks :: IsNeededBy(tasks, id, Get(needed, id)) && (id in stuck <==> IsStuck(tasks, id))
    ensures rows.Keys == tasks.Keys
    ensures forall id <- tasks :: RowMeans(tasks, today, id, rows[id])
  {
    hide RowMeans, Ids, Row, DependentsOf, DependsOn, Entry, Get, IsNeededBy, IsStuck, Unrepeated;
    rows := map[];
    var ids := Ids(tasks.Keys);
    for i := 0 to |ids|
      invariant forall x :: x in rows <==> x in ids[..i]
      invariant forall x <- rows :: x in tasks && RowMeans(tasks, today, x, rows[x])
    {
      var id := ids[i];
      assert id in tasks.Keys;
      RowIs(tasks, id, Get(needed, id), id in stuck, today);
      rows := rows[id := Row(tasks, tasks[id], Get(needed, id), id in stuck, Entry(dependents, id), today)];
      assert ids[..i + 1] == ids[..i] + [id];
    }
    assert ids[..|ids|] == ids;
  }

  /** Sorting by the key of three and the id ranks them. */
  lemma SortedIsRanked(tasks: Tasks, rows: map<TaskId, TaskDerived>, ids: seq<TaskId>)
    requires rows.Keys == tasks.Keys && Unrepeated(ids) && forall id :: id in ids ==> id in tasks
    requires Sorted((a, b) => Before(tasks, Dates(rows), a, b), ids)
    ensures Ranked(tasks, rows, ids)
  {
    forall i, j | 0 <= i < j < |ids|
      ensures Ahead(tasks, rows, ids[i], ids[j])
    {
      assert ids[i] in ids && ids[j] in ids && Before(tasks, Dates(rows), ids[i], ids[j]);
    }
  }

  method Prioritize(tasks: Tasks, rows: map<TaskId, TaskDerived>) returns (priority: seq<TaskId>)
    requires rows.Keys == tasks.Keys
    ensures forall id :: id in priority <==> IsWork(tasks, id)
    ensures Ranked(tasks, rows, priority)
  {
    hide Ids, Before, Ranked, PriorityIds, Sort, Sorted, TotalPreorder, Antisymmetric, Unrepeated, Dates;
    var ids := PriorityIds(tasks, Ids(tasks.Keys));
    PriorityNoRepeats(tasks, Ids(tasks.Keys));
    var le := (a: TaskId, b: TaskId) => Before(tasks, Dates(rows), a, b);
    priority := Sort(le, ids);
    BeforeIsTotal(tasks, Dates(rows));
    SortSorted(le, ids);
    MultisetMembers(priority, ids);
    UnrepeatedBySort(priority, ids);
    SortedIsRanked(tasks, rows, priority);
  }

  /** Give one task to each of its assignees. */
  method Hand(next0: map<string, seq<TaskId>>, seats: seq<string>, id: TaskId) returns (next: map<string, seq<TaskId>>)
    requires Unrepeated(seats) && forall i :: 0 <= i < |seats| ==> seats[i] in next0
    ensures next.Keys == next0.Keys
    ensures forall s <- next :: next[s] == next0[s] + (if s in seats then [id] else [])
  {
    next := next0;
    for i := 0 to |seats|
      invariant next.Keys == next0.Keys
      invariant forall s <- next :: next[s] == next0[s] + (if s in seats[..i] then [id] else [])
    {
      assert seats[..i + 1] == seats[..i] + [seats[i]] && seats[i] !in seats[..i];
      next := next[seats[i] := next[seats[i]] + [id]];
    }
    assert seats[..|seats|] == seats;
  }

  lemma PassStep(tasks: Tasks, ids: seq<TaskId>, i: nat, wipPass: bool, today: int, seat: string)
    requires i < |ids|
    ensures PassFor(tasks, ids[..i + 1], wipPass, today, seat) == PassFor(tasks, ids[..i], wipPass, today, seat)
              + (if Taken(tasks, ids[i], wipPass, today) && seat in tasks[ids[i]].assignees then [ids[i]] else [])
  {
    assert ids[..i + 1][..i] == ids[..i] && ids[..i + 1][i] == ids[i];
  }

  method TakePass(tasks: Tasks, ids: seq<TaskId>, next0: map<string, seq<TaskId>>, wipPass: bool, today: int)
    returns (next: map<string, seq<TaskId>>)
    requires forall id :: id in ids ==> id in tasks && Unrepeated(tasks[id].assignees)
    requires forall seat :: Employed(tasks, ids, seat) ==> seat in next0
    ensures next.Keys == next0.Keys
    ensures forall s <- next :: next[s] == next0[s] + PassFor(tasks, ids, wipPass, today, s)
  {
    hide Taken, PassFor;
    next := next0;
    NothingTaken(tasks, wipPass, today);
    assert ids[..0] == [];
    for i := 0 to |ids|
      invariant next.Keys == next0.Keys
      invariant forall s <- next :: next[s] == next0[s] + PassFor(tasks, ids[..i], wipPass, today, s)
    {
      var id := ids[i];
      assert id in ids;
      ghost var before := next;
      if Taken(tasks, id, wipPass, today) {
        forall j | 0 <= j < |tasks[id].assignees|
          ensures tasks[id].assignees[j] in next
        {
          assert Employed(tasks, ids, tasks[id].assignees[j]);
        }
        next := Hand(next, tasks[id].assignees, id);
      }
      forall s <- next
        ensures next[s] == next0[s] + PassFor(tasks, ids[..i + 1], wipPass, today, s)
      {
        PassStep(tasks, ids, i, wipPass, today, s);
      }
    }
    assert ids[..|ids|] == ids;
  }

  lemma NothingTaken(tasks: Tasks, wipPass: bool, today: int)
    ensures forall s :: PassFor(tasks, [], wipPass, today, s) == []
  {
  }

  /** An empty list for every seat with open work. */
  method Roll(tasks: Tasks, ids: seq<TaskId>) returns (next: map<string, seq<TaskId>>)
    requires forall id :: id in ids ==> id in tasks
    ensures forall seat :: seat in next <==> Employed(tasks, ids, seat)
    ensures forall s <- next :: next[s] == []
  {
    next := map[];
    for i := 0 to |ids|
      invariant forall seat :: seat in next <==> exists k :: 0 <= k < i && seat in tasks[ids[k]].assignees
      invariant forall s <- next :: next[s] == []
    {
      assert ids[i] in ids;
      var seats := tasks[ids[i]].assignees;
      ghost var before := next;
      for j := 0 to |seats|
        invariant forall seat :: seat in next <==> seat in before || seat in seats[..j]
        invariant forall s <- next :: next[s] == []
      {
        if seats[j] !in next { next := next[seats[j] := []]; }
        assert seats[..j + 1] == seats[..j] + [seats[j]];
      }
      assert seats[..|seats|] == seats;
    }
  }

  /** One pass keeps the ranking and takes the seat's tasks of its kind. */
  lemma {:induction false} PassIs(tasks: Tasks, rows: map<TaskId, TaskDerived>, ids: seq<TaskId>, wipPass: bool, today: int, seat: string)
    requires Ranked(tasks, rows, ids)
    ensures var out := PassFor(tasks, ids, wipPass, today, seat);
            && Ranked(tasks, rows, out)
            && forall x :: x in out <==> x in ids && Taken(tasks, x, wipPass, today) && seat in tasks[x].assignees
  {
    hide Ahead, Startable;
    if ids != [] {
      var n := |ids| - 1;
      assert ids == ids[..n] + [ids[n]];
      PassIs(tasks, rows, ids[..n], wipPass, today, seat);
      var front := PassFor(tasks, ids[..n], wipPass, today, seat);
      forall i | 0 <= i < |front|
        ensures Ahead(tasks, rows, front[i], ids[n])
      {
        assert front[i] in ids[..n];
      }
    }
  }

  lemma UnmetIsWaits(tasks: Tasks, id: TaskId)
    requires id in tasks
    ensures Unmet(tasks, tasks[id]) <==> Waits(tasks, id)
  {
    var links := tasks[id].blockedBy;
    if Waits(tasks, id) {
      var b :| b in links && b in tasks && !tasks[b].state.Success? && !tasks[b].state.Cancelled?;
      var i :| 0 <= i < |links| && links[i] == b;
    }
  }

  /** What a seat is handed: work begun first, then what can be begun. */
  lemma NextIs(tasks: Tasks, rows: map<TaskId, TaskDerived>, ids: seq<TaskId>, today: int, seat: string)
    requires Ranked(tasks, rows, ids) && rows.Keys == tasks.Keys && forall id :: id in ids <==> IsWork(tasks, id)
    ensures var out := PassFor(tasks, ids, true, today, seat) + PassFor(tasks, ids, false, today, seat);
            Ranked(tasks, rows, out) && forall id :: id in out <==> IsNext(tasks, today, seat, id)
  {
    hide PassFor, Unmet, Waits;
    var begun, free := PassFor(tasks, ids, true, today, seat), PassFor(tasks, ids, false, today, seat);
    PassIs(tasks, rows, ids, true, today, seat);
    PassIs(tasks, rows, ids, false, today, seat);
    forall i, j | 0 <= i < |begun| && 0 <= j < |free|
      ensures Ahead(tasks, rows, begun[i], free[j])
    {
      assert begun[i] in begun && free[j] in free;
    }
    forall id
      ensures id in begun + free <==> IsNext(tasks, today, seat, id)
    {
      if id in tasks { UnmetIsWaits(tasks, id); }
    }
  }

  lemma EmployedIs(tasks: Tasks, ids: seq<TaskId>, seat: string)
    requires forall id :: id in ids <==> IsWork(tasks, id)
    ensures Employed(tasks, ids, seat) <==> HasWork(tasks, seat)
  {
    if HasWork(tasks, seat) {
      var id :| IsWork(tasks, id) && seat in tasks[id].assignees;
      var i :| 0 <= i < |ids| && ids[i] == id;
    }
    if i :| 0 <= i < |ids| && ids[i] in tasks && seat in tasks[ids[i]].assignees {
      assert ids[i] in ids;
    }
  }

  /** The derived view of a board on one day. */
  method DeriveBoard(tasks: Tasks, today: int) returns (out: Derived)
    requires CleanLinks(tasks) && TaskGraph.Acyclic(Links(tasks))
    requires forall id <- tasks :: Unrepeated(tasks[id].assignees)
    ensures IsDerived(tasks, today, out)
  {
    hide IsNeededBy, IsStuck, RowMeans, DependentsOf, Entry, DependentsFirst, PassFor, Employed, TaskGraph.Acyclic, HasWork, Ranked, IsNext, Taken, Get;
    var dependents := CollectDependents(tasks);
    var order := DependentsFirstOrder(tasks, dependents);
    var needed := NeededDates(tasks, dependents, order);
    var stuck := StuckTasks(tasks, order);
    forall id <- tasks
      ensures IsNeededBy(tasks, id, Get(needed, id))
    {
      var i :| 0 <= i < |order| && order[i] == id;
    }
    var rows := DeriveRows(tasks, dependents, needed, stuck, today);
    var priority := Prioritize(tasks, rows);
    var rolled := Roll(tasks, priority);
    var begun := TakePass(tasks, priority, rolled, true, today);
    var next := TakePass(tasks, priority, begun, false, today);
    forall seat
      ensures seat in next <==> HasWork(tasks, seat)
    {
      EmployedIs(tasks, priority, seat);
    }
    forall seat <- next
      ensures forall id :: id in next[seat] <==> IsNext(tasks, today, seat, id)
      ensures Ranked(tasks, rows, next[seat])
    {
      NextIs(tasks, rows, priority, today, seat);
      assert next[seat] == PassFor(tasks, priority, true, today, seat) + PassFor(tasks, priority, false, today, seat);
    }
    out := Derived(rows, priority, next);
  }

  // --------------------------------------------------------------- consequences

  lemma SeqsWithSameMembers(a: seq<TaskId>, b: seq<TaskId>)
    requires Unrepeated(a) && Unrepeated(b) && forall x :: x in a <==> x in b
    ensures multiset(a) == multiset(b)
  {
    forall x
      ensures multiset(a)[x] == multiset(b)[x]
    {
      assert Unrepeated(a) && Unrepeated(b);
      UnrepeatedIsOnce(a, x);
      UnrepeatedIsOnce(b, x);
      assert x in a <==> x in multiset(a);
      assert x in b <==> x in multiset(b);
    }
  }

  lemma AscendingUnique(a: seq<TaskId>, b: seq<TaskId>)
    requires Ascending(a) && Ascending(b) && forall x :: x in a <==> x in b
    ensures a == b
  {
    SeqsWithSameMembers(a, b);
    SortedUnique((x: TaskId, y: TaskId) => x <= y, a, b);
  }

  lemma RankedUnique(tasks: Tasks, rows: map<TaskId, TaskDerived>, a: seq<TaskId>, b: seq<TaskId>)
    requires Ranked(tasks, rows, a) && Ranked(tasks, rows, b) && forall x :: x in a <==> x in b
    ensures a == b
  {
    SeqsWithSameMembers(a, b);
    BeforeIsTotal(tasks, Dates(rows));
    SortedUnique((x: TaskId, y: TaskId) => Before(tasks, Dates(rows), x, y), a, b);
  }

  lemma RowUnique(tasks: Tasks, today: int, id: TaskId, a: TaskDerived, b: TaskDerived)
    requires id in tasks && RowMeans(tasks, today, id, a) && RowMeans(tasks, today, id, b)
    ensures a == b
  {
    hide IsNeededBy, IsStuck, Waits, RunsInto;
    NeededUnique(tasks, id, a.neededBy, b.neededBy);
    AscendingUnique(a.prerequisiteFor, b.prerequisiteFor);
  }

  /** The meaning leaves no choice: a board has one derivation per day. */
  lemma DerivedUnique(tasks: Tasks, today: int, d: Derived, e: Derived)
    requires IsDerived(tasks, today, d) && IsDerived(tasks, today, e)
    ensures d == e
  {
    hide RowMeans, Ranked, IsWork, IsNext, HasWork;
    forall id <- tasks
      ensures d.tasks[id] == e.tasks[id]
    {
      RowUnique(tasks, today, id, d.tasks[id], e.tasks[id]);
    }
    assert d.tasks == e.tasks;
    RankedUnique(tasks, d.tasks, d.priority, e.priority);
    forall seat <- d.next
      ensures seat in e.next && d.next[seat] == e.next[seat]
    {
      RankedUnique(tasks, d.tasks, d.next[seat], e.next[seat]);
    }
    assert d.next == e.next;
  }

  /** An open prerequisite of an overdue open task is itself overdue. */
  lemma OverdueReachesPrerequisites(tasks: Tasks, today: int, d: Derived, late: TaskId, b: TaskId)
    requires IsDerived(tasks, today, d) && DependsOn(tasks, late, b) && IsOpen(tasks[b])
    requires late in d.tasks && d.tasks[late].overdue
    ensures d.tasks[b].overdue && d.tasks[b].neededBy.value <= d.tasks[late].neededBy.value
  {
    hide IsNeededBy, IsStuck, IsShown, Conflicts, Waits, Ranked, IsNext, HasWork;
    assert RowMeans(tasks, today, late, d.tasks[late]) && RowMeans(tasks, today, b, d.tasks[b]);
    var p := NeededWitness(tasks, late, d.tasks[late].neededBy);
    ChainCons(tasks, b, p);
    NeededBound(tasks, b, d.tasks[b].neededBy, [b] + p);
  }
}
