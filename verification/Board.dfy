/**
 The kanban board and the changesets that edit it: acts with their shape
 rules, the lifecycle table, and the all-or-nothing application.
 */
module Board {
  import opened Prelude
  import opened Civil
  import opened Series
  import opened Windows
  import opened Sorting
  import TaskGraph

  type TaskId = nat

  datatype TaskState = Todo | Wip | Success | Fail | Cancelled

  datatype Size = Xs | S | M | L | Xl | Xxl

  datatype Task = Task(
    title: string,
    kind: Option<string>,
    creator: string,
    assignees: seq<string>,
    size: Option<Size>,
    blockedBy: seq<TaskId>,
    due: Option<int>,
    after: Option<int>,
    when: Option<When>,
    repeat: Option<Repeat>,
    skip: seq<int>,
    moved: map<int, When>,
    state: TaskState,
    note: Option<string>,
    evidence: seq<string>,
    description: Option<string>,
    acceptance: seq<string>,
    outOfScope: seq<string>,
    touchedRev: nat)

  type Tasks = map<TaskId, Task>

  datatype BoardState = BoardState(rev: nat, tasks: Tasks)

  const EMPTY: BoardState := BoardState(0, map[])

  datatype Field =
    | Title(title: string)
    | Kind(kind: Option<string>)
    | Assignees(assignees: seq<string>)
    | SizeIs(size: Option<Size>)
    | BlockedBy(blockedBy: seq<TaskId>)
    | Due(due: Option<int>)
    | After(after: Option<int>)
    | WhenIs(when: Option<When>)
    | RepeatIs(repeat: Option<Repeat>)
    | Skip(skip: seq<int>)
    | Moved(moved: map<int, When>)
    | Description(description: Option<string>)
    | Acceptance(acceptance: seq<string>)
    | OutOfScope(outOfScope: seq<string>)

  datatype Act =
    | Add(newId: Option<TaskId>, creator: Option<string>, fields: seq<Field>)
    | Set(id: TaskId, fields: seq<Field>)
    | State(id: TaskId, to: TaskState, note: Option<string>, evidence: seq<string>)

  /** An applied payload: not a kanban changeset, or one whose acts parsed or did not. */
  datatype Payload = Foreign | Ops(acts: Option<seq<Act>>)

  datatype Reason =
    | BadShape | IdMissing | AlreadyExists | UnknownTask | NoteRequired | BlockedStart(task: TaskId)
    | SeriesOnlyCancels | NotStarted | NotAllowed(from: TaskState, to: TaskState)
    | CreatorNotASeat | NotASeat(seat: string) | AfterLaterThanDue | RepeatNeedsWhen | SeriesState
    | NoOccurrence(date: int) | NeedsSeries | BlockedByItself | BlockedByUnknown(other: TaskId)
    | SeriesLinked | CycleFound

  /** A void reason and the task it concerns. */
  datatype Fault = Fault(reason: Reason, task: Option<TaskId>)

  // -------------------------------------------------------------------- shape

  /** Unicode white space, as trimming sees it. */
  predicate White(c: char) {
    '\t' <= c <= '\r' || c == ' ' || c as int == 0x85 || c as int == 0xA0 || c as int == 0x1680 ||
    0x2000 <= c as int <= 0x200A || c as int == 0x2028 || c as int == 0x2029 || c as int == 0x202F ||
    c as int == 0x205F || c as int == 0x3000
  }

  predicate Blank(s: string) {
    forall i :: 0 <= i < |s| ==> White(s[i])
  }

  predicate OneLine(s: string) {
    !Blank(s) && '\n' !in s && '\r' !in s
  }

  predicate Trimmed(s: string) {
    s != [] ==> !White(s[0]) && !White(s[|s| - 1])
  }

  predicate WireDate(d: int) {
    0 <= d <= LAST_DAY
  }

  /** The stateless rules one parsed field meets. */
  predicate FieldShape(f: Field) {
    match f
    case Title(t) => OneLine(t)
    case Kind(k) => k.Some? ==> OneLine(k.value) && Trimmed(k.value)
    case Assignees(a) => a != [] && [] !in a && Unrepeated(a)
    case BlockedBy(b) => Unrepeated(b)
    case Due(d) => d.Some? ==> WireDate(d.value)
    case After(d) => d.Some? ==> WireDate(d.value)
    case WhenIs(w) => w.Some? ==> ValidWhen(w.value)
    case RepeatIs(r) => r.Some? ==> ValidRepeat(r.value)
    case Skip(s) => forall i :: 0 <= i < |s| ==> WireDate(s[i])
    case Moved(m) => forall k <- m :: WireDate(k) && ValidWhen(m[k])
    case Acceptance(a) => forall i :: 0 <= i < |a| ==> OneLine(a[i])
    case OutOfScope(o) => forall i :: 0 <= i < |o| ==> OneLine(o[i])
    case _ => true
  }

  /** The last value the fields give to `due` and `after`. */
  function NamedDue(fields: seq<Field>): (d: Option<int>) {
    if fields == [] then None
    else
      var last := fields[|fields| - 1];
      if last.Due? then last.due else NamedDue(fields[..|fields| - 1])
  }

  function NamedAfter(fields: seq<Field>): (d: Option<int>) {
    if fields == [] then None
    else
      var last := fields[|fields| - 1];
      if last.After? then last.after else NamedAfter(fields[..|fields| - 1])
  }

  predicate FieldsShape(id: TaskId, fields: seq<Field>) {
    && (forall i :: 0 <= i < |fields| ==> FieldShape(fields[i]))
    && (forall i :: 0 <= i < |fields| && fields[i].BlockedBy? ==> id !in fields[i].blockedBy)
    && (NamedAfter(fields).Some? && NamedDue(fields).Some? ==> NamedAfter(fields).value <= NamedDue(fields).value)
  }

  /** The canonical shape of one act. */
  predicate ActShape(a: Act) {
    match a
    case Add(id, creator, fields) =>
      && id.Some? && creator.Some? && creator.value != []
      && FieldsShape(id.value, fields)
      && (exists i :: 0 <= i < |fields| && fields[i].Title?)
      && (exists i :: 0 <= i < |fields| && fields[i].Assignees?)
      && ((exists i :: 0 <= i < |fields| && fields[i].RepeatIs? && fields[i].repeat.Some?) ==>
            exists i :: 0 <= i < |fields| && fields[i].WhenIs? && fields[i].when.Some?)
    case Set(id, fields) => fields != [] && FieldsShape(id, fields)
    case State(_, to, _, evidence) => evidence != [] ==> to.Success?
  }

  function Parse(p: Payload): (r: Result<seq<Act>, Fault>)
  {
    if p.Ops? && p.acts.Some? && p.acts.value != [] && (forall i :: 0 <= i < |p.acts.value| ==> ActShape(p.acts.value[i]))
    then Ok(p.acts.value)
    else Err(Fault(BadShape, None))
  }

  // ---------------------------------------------------------------- lifecycle

  predicate IsMet(s: TaskState) {
    s.Success? || s.Cancelled?
  }

  predicate IsSeries(t: Task) {
    t.repeat.Some?
  }

  predicate IsTimedOnce(t: Task) {
    t.when.Some? && t.repeat.None?
  }

  predicate HasNote(note: Option<string>) {
    note.Some? && !Blank(note.value)
  }

  predicate Met(tasks: Tasks, id: TaskId) {
    id in tasks && (tasks[id].state.Success? || tasks[id].state.Cancelled?)
  }

  /** A note that says something. */
  predicate Says(note: Option<string>) {
    note.Some? && exists i :: 0 <= i < |note.value| && !White(note.value[i])
  }

  /** The link at `i` is unmet and all before it are met. */
  predicate FirstUnmet(tasks: Tasks, links: seq<TaskId>, i: int) {
    0 <= i < |links| && !Met(tasks, links[i]) && forall j :: 0 <= j < i ==> Met(tasks, links[j])
  }

  /** The first prerequisite that still blocks. */
  function UnmetPrerequisite(tasks: Tasks, links: seq<TaskId>): (r: Option<TaskId>)
    ensures r.None? ==> forall i :: 0 <= i < |links| ==> Met(tasks, links[i])
    ensures r.Some? ==> exists i :: FirstUnmet(tasks, links, i) && r.value == links[i]
  {
    if links == [] then None
    else if links[0] in tasks && IsMet(tasks[links[0]].state) then
      assert forall i :: 0 < i < |links| ==> links[i] == links[1..][i - 1];
      var r := UnmetPrerequisite(tasks, links[1..]);
      assert r.Some? ==> exists i :: FirstUnmet(tasks, links[1..], i) && r.value == links[1..][i] && FirstUnmet(tasks, links, i + 1);
      r
    else
      assert FirstUnmet(tasks, links, 0);
      Some(links[0])
  }

  /** The moves a task may ever make: a series only cancels or reopens, and only one timed slot ends without being started. */
  predicate Legal(t: Task, to: TaskState) {
    && t.state != to
    && (t.repeat.Some? ==> {t.state, to} == {Todo, Cancelled})
    && match t.state
       case Todo => to.Wip? || to.Cancelled? || (t.when.Some? && t.repeat.None?)
       case Wip => true
       case Fail => !to.Success?
       case Success => to.Todo?
       case Cancelled => to.Todo?
  }

  /** Leaving `todo` for anything but cancellation. */
  predicate BeginsWork(from: TaskState, to: TaskState) {
    from.Todo? && !to.Todo? && !to.Cancelled?
  }

  /** What a refused transition says of itself holds. */
  ghost predicate IsTrueOf(tasks: Tasks, id: TaskId, to: TaskState, note: Option<string>, f: Fault) {
    if f.reason.UnknownTask? then id !in tasks && f.task == Some(id)
    else
      && id in tasks
      && var t := tasks[id];
         match f.reason
         case SeriesOnlyCancels => t.repeat.Some? && {t.state, to} != {Todo, Cancelled} && f.task == Some(id)
         case NoteRequired => (to.Fail? || to.Cancelled?) && !Says(note) && f.task == Some(id)
         case BlockedStart(x) =>
           x == id && BeginsWork(t.state, to) && exists i :: FirstUnmet(tasks, t.blockedBy, i) && f.task == Some(t.blockedBy[i])
         case NotStarted =>
           t.state.Todo? && (to.Success? || to.Fail?) && !(t.when.Some? && t.repeat.None?) && f.task == Some(id)
         case NotAllowed(from, x) => from == t.state && x == to && !Legal(t, to) && f.task == Some(id)
         case _ => false
  }

  /** `None` when the transition is allowed now. */
  function Transition(tasks: Tasks, id: TaskId, to: TaskState, note: Option<string>): (f: Option<Fault>)
    ensures f.None? <==>
            && id in tasks && Legal(tasks[id], to)
            && (to.Fail? || to.Cancelled? ==> Says(note))
            && (BeginsWork(tasks[id].state, to) ==> forall b <- tasks[id].blockedBy :: Met(tasks, b))
    ensures f.Some? ==> IsTrueOf(tasks, id, to, note, f.value)
  {
    if id !in tasks then Some(Fault(UnknownTask, Some(id)))
    else
      var t := tasks[id];
      var needsNote := if HasNote(note) then None else Some(Fault(NoteRequired, Some(id)));
      var unmet := UnmetPrerequisite(tasks, t.blockedBy);
      var guard := if unmet.None? then None else Some(Fault(BlockedStart(id), unmet));
      if IsSeries(t) && !((t.state.Todo? && to.Cancelled?) || (t.state.Cancelled? && to.Todo?)) then
        Some(Fault(SeriesOnlyCancels, Some(id)))
      else
        match (t.state, to)
        case (Todo, Wip) => guard
        case (Wip, Todo) => None
        case (Wip, Success) => None
        case (Fail, Wip) => None
        case (Success, Todo) => None
        case (Fail, Todo) => None
        case (Cancelled, Todo) => None
        case (Wip, Fail) => needsNote
        case (Todo, Cancelled) => needsNote
        case (Wip, Cancelled) => needsNote
        case (Fail, Cancelled) => needsNote
        case (Todo, Success) => if !IsTimedOnce(t) then Some(Fault(NotStarted, Some(id))) else guard
        case (Todo, Fail) =>
          if !IsTimedOnce(t) then Some(Fault(NotStarted, Some(id)))
          else if guard.Some? then guard else needsNote
        case _ => Some(Fault(NotAllowed(t.state, to), Some(id)))
  }

  // -------------------------------------------------------------- application

  function SetField(t: Task, f: Field): Task {
    match f
    case Title(v) => t.(title := v)
    case Kind(v) => t.(kind := v)
    case Assignees(v) => t.(assignees := v)
    case SizeIs(v) => t.(size := v)
    case BlockedBy(v) => t.(blockedBy := v)
    case Due(v) => t.(due := v)
    case After(v) => t.(after := v)
    case WhenIs(v) => t.(when := v)
    case RepeatIs(v) => t.(repeat := v)
    case Skip(v) => t.(skip := v)
    case Moved(v) => t.(moved := v)
    case Description(v) => t.(description := v)
    case Acceptance(v) => t.(acceptance := v)
    case OutOfScope(v) => t.(outOfScope := v)
  }

  function SetFields(t: Task, fields: seq<Field>): Task {
    if fields == [] then t else SetField(SetFields(t, fields[..|fields| - 1]), fields[|fields| - 1])
  }

  function NewTask(creator: string, rev: nat): Task {
    Task([], None, creator, [], None, [], None, None, None, None, [], map[], Todo, None, [], None, [], [], rev)
  }

  /** One act over the working copy. */
  function ApplyAct(tasks: Tasks, act: Act, rev: nat): (r: Result<(Tasks, TaskId), Fault>) {
    match act
    case Add(id, creator, fields) =>
      if id.None? then Err(Fault(IdMissing, None))
      else if id.value in tasks then Err(Fault(AlreadyExists, id))
      else
        var t := SetFields(NewTask(if creator.Some? then creator.value else [], rev), fields);
        Ok((tasks[id.value := t], id.value))
    case Set(id, fields) =>
      if id !in tasks then Err(Fault(UnknownTask, Some(id)))
      else Ok((tasks[id := SetFields(tasks[id], fields).(touchedRev := rev)], id))
    case State(id, to, note, evidence) =>
      var f := Transition(tasks, id, to, note);
      if f.Some? then Err(f.value)
      else Ok((tasks[id := tasks[id].(state := to, note := note, evidence := evidence, touchedRev := rev)], id))
  }

  function ApplyActs(tasks: Tasks, touched: set<TaskId>, acts: seq<Act>, rev: nat): (r: Result<(Tasks, set<TaskId>), Fault>)
    decreases |acts|
  {
    if acts == [] then Ok((tasks, touched))
    else
      match ApplyAct(tasks, acts[0], rev)
      case Err(f) => Err(f)
      case Ok((tasks', id)) => ApplyActs(tasks', touched + {id}, acts[1..], rev)
  }

  /** The first key that is no occurrence of the series. */
  function StrayKey(w: When, r: Repeat, keys: seq<int>): (k: Option<int>)
    requires ValidRepeat(r)
    ensures k.None? <==> forall i :: 0 <= i < |keys| ==> IsOccurrence(w, r, keys[i])
    ensures k.Some? ==> k.value in keys && !IsOccurrence(w, r, k.value)
  {
    if keys == [] then None
    else if !IsOccurrence(w, r, keys[0]) then Some(keys[0])
    else
      assert forall i :: 0 < i < |keys| ==> keys[i] == keys[1..][i - 1];
      StrayKey(w, r, keys[1..])
  }

  /** What a refused link says of itself holds. */
  ghost predicate IsTrueOfLinks(tasks: Tasks, id: TaskId, t: Task, links: seq<TaskId>, r: Reason) {
    match r
    case BlockedByItself => id in links
    case BlockedByUnknown(b) => b in links && b !in tasks
    case SeriesLinked => exists b :: b in links && b in tasks && (tasks[b].repeat.Some? || t.repeat.Some?)
    case _ => false
  }

  function StrayLink(tasks: Tasks, id: TaskId, t: Task, links: seq<TaskId>): (r: Option<Reason>)
    ensures r.None? <==> forall i :: 0 <= i < |links| ==>
              links[i] != id && links[i] in tasks && !IsSeries(tasks[links[i]]) && !IsSeries(t)
    ensures r.Some? ==> IsTrueOfLinks(tasks, id, t, links, r.value)
  {
    if links == [] then None
    else
      var b := links[0];
      if b == id then Some(BlockedByItself)
      else if b !in tasks then Some(BlockedByUnknown(b))
      else if IsSeries(tasks[b]) || IsSeries(t) then Some(SeriesLinked)
      else
        assert forall i :: 0 < i < |links| ==> links[i] == links[1..][i - 1];
        StrayLink(tasks, id, t, links[1..])
  }

  function StraySeat(assignees: seq<string>, seats: set<string>): (r: Option<string>)
    ensures r.None? <==> forall i :: 0 <= i < |assignees| ==> assignees[i] in seats
    ensures r.Some? ==> r.value in assignees && r.value !in seats
  {
    if assignees == [] then None
    else if assignees[0] !in seats then Some(assignees[0])
    else
      assert forall i :: 0 < i < |assignees| ==> assignees[i] == assignees[1..][i - 1];
      StraySeat(assignees[1..], seats)
  }

  /** The rules that need a task's resulting fields. */
  function CheckTask(tasks: Tasks, id: TaskId, t: Task, seats: set<string>): (r: Option<Reason>)
    requires t.repeat.Some? ==> ValidRepeat(t.repeat.value)
  {
    if t.creator !in seats then Some(CreatorNotASeat)
    else if StraySeat(t.assignees, seats).Some? then Some(NotASeat(StraySeat(t.assignees, seats).value))
    else if t.after.Some? && t.due.Some? && t.after.value > t.due.value then Some(AfterLaterThanDue)
    else if t.repeat.Some? && t.when.None? then Some(RepeatNeedsWhen)
    else if IsSeries(t) && !t.state.Todo? && !t.state.Cancelled? then Some(SeriesState)
    else
      var keys := t.skip + Keys(t.moved.Keys);
      if t.when.Some? && t.repeat.Some? then
        var stray := StrayKey(t.when.value, t.repeat.value, keys);
        if stray.Some? then Some(NoOccurrence(stray.value)) else StrayLink(tasks, id, t, t.blockedBy)
      else if t.skip != [] || t.moved != map[] then Some(NeedsSeries)
      else StrayLink(tasks, id, t, t.blockedBy)
  }

  predicate FirstDependent(tasks: Tasks, keys: seq<TaskId>, id: TaskId, i: int) {
    && 0 <= i < |keys| && keys[i] in tasks && id in tasks[keys[i]].blockedBy
    && forall j :: 0 <= j < i ==> keys[j] in tasks && id !in tasks[keys[j]].blockedBy
  }

  /** The least of `keys` whose task is blocked by `id`. */
  function DependentOf(tasks: Tasks, keys: seq<TaskId>, id: TaskId): (r: Option<TaskId>)
    requires forall i :: 0 <= i < |keys| ==> keys[i] in tasks
    ensures r.None? <==> forall i :: 0 <= i < |keys| ==> id !in tasks[keys[i]].blockedBy
    ensures r.Some? ==> exists i :: FirstDependent(tasks, keys, id, i) && 0 <= i < |keys| && r.value == keys[i]
  {
    if keys == [] then None
    else if id in tasks[keys[0]].blockedBy then
      assert FirstDependent(tasks, keys, id, 0);
      Some(keys[0])
    else
      assert forall i :: 0 < i < |keys| ==> keys[i] == keys[1..][i - 1];
      assert forall i :: FirstDependent(tasks, keys[1..], id, i) ==> FirstDependent(tasks, keys, id, i + 1) && keys[i + 1] == keys[1..][i];
      DependentOf(tasks, keys[1..], id)
  }

  predicate ValidRepeats(tasks: Tasks) {
    forall id <- tasks :: tasks[id].repeat.Some? ==> ValidRepeat(tasks[id].repeat.value)
  }

  /** Ids in the ascending order of a `BTreeMap`. */
  function Ids(s: set<TaskId>): (r: seq<TaskId>)
    ensures Unrepeated(r) && |r| == |s|
    ensures forall x :: x in r <==> x in s
    ensures forall i, j :: 0 <= i < j < |r| ==> r[i] < r[j]
  {
    var r := Keys(s);
    assert forall i :: 0 <= i < |r| ==> r[i] in s;
    r
  }

  function CheckTouched(tasks: Tasks, touched: seq<TaskId>, seats: set<string>): (f: Option<Fault>)
    requires ValidRepeats(tasks)
  {
    if touched == [] then None
    else if touched[0] !in tasks then CheckTouched(tasks, touched[1..], seats)
    else
      var id := touched[0];
      var r := CheckTask(tasks, id, tasks[id], seats);
      if r.Some? then Some(Fault(r.value, Some(id)))
      else
        var d := if IsSeries(tasks[id]) then DependentOf(tasks, Ids(tasks.Keys), id) else None;
        if d.Some? then Some(Fault(SeriesLinked, d)) else CheckTouched(tasks, touched[1..], seats)
  }

  /** The prerequisite graph of a set of tasks. */
  function Links(tasks: Tasks): TaskGraph.Graph {
    map id | id in tasks :: tasks[id].blockedBy
  }

  function CheckResult(tasks: Tasks, touched: seq<TaskId>, seats: set<string>): (f: Option<Fault>)
    requires ValidRepeats(tasks)
  {
    var f := CheckTouched(tasks, touched, seats);
    if f.Some? then f
    else
      var c := TaskGraph.FindCycle(Links(tasks), touched);
      if c.Some? then Some(Fault(CycleFound, c)) else None
  }
}
