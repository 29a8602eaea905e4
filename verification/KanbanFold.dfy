/**
 The board as a fold over applied payloads. The theorem: every board the fold
 can reach is well formed as a whole, although each changeset is checked only
 at the tasks it touched.
 */
module KanbanFold {
  import opened Prelude
  import opened Series
  import opened Windows
  import opened Sorting
  import opened Board
  import TaskGraph

  // ------------------------------------------- what the shape rules guarantee

  /** Facts the shape of the acts alone gives every task. */
  ghost predicate Shaped(t: Task) {
    && OneLine(t.title)
    && t.assignees != [] && Unrepeated(t.assignees)
    && Unrepeated(t.blockedBy)
    && (t.due.Some? ==> WireDate(t.due.value))
    && (t.after.Some? ==> WireDate(t.after.value))
    && (t.when.Some? ==> ValidWhen(t.when.value))
    && (t.repeat.Some? ==> ValidRepeat(t.repeat.value))
    && (forall i :: 0 <= i < |t.skip| ==> WireDate(t.skip[i]))
    && (forall k <- t.moved :: WireDate(k) && ValidWhen(t.moved[k]))
  }

  /** Facts about a task's last transition. */
  ghost predicate Recorded(t: Task, rev: nat) {
    && (t.evidence != [] ==> t.state.Success?)
    && (t.state.Fail? || t.state.Cancelled? ==> Says(t.note))
    && t.touchedRev <= rev
  }

  /** `Shaped`, short of the two fields every `add` must name. */
  ghost predicate AlmostShaped(t: Task) {
    Shaped(t.(title := "t", assignees := ["a"]))
  }

  /** Which field of a task a field value sets. */
  function Slot(f: Field): nat {
    match f
    case Title(_) => 0
    case Kind(_) => 1
    case Assignees(_) => 2
    case SizeIs(_) => 3
    case BlockedBy(_) => 4
    case Due(_) => 5
    case After(_) => 6
    case WhenIs(_) => 7
    case RepeatIs(_) => 8
    case Skip(_) => 9
    case Moved(_) => 10
    case Description(_) => 11
    case Acceptance(_) => 12
    case OutOfScope(_) => 13
  }

  /** The task's field has this value. */
  predicate Reads(t: Task, f: Field) {
    match f
    case Title(v) => t.title == v
    case Kind(v) => t.kind == v
    case Assignees(v) => t.assignees == v
    case SizeIs(v) => t.size == v
    case BlockedBy(v) => t.blockedBy == v
    case Due(v) => t.due == v
    case After(v) => t.after == v
    case WhenIs(v) => t.when == v
    case RepeatIs(v) => t.repeat == v
    case Skip(v) => t.skip == v
    case Moved(v) => t.moved == v
    case Description(v) => t.description == v
    case Acceptance(v) => t.acceptance == v
    case OutOfScope(v) => t.outOfScope == v
  }

  lemma SetFieldReads(t: Task, f: Field, g: Field)
    ensures Reads(SetField(t, f), f)
    ensures Slot(f) != Slot(g) ==> (Reads(SetField(t, f), g) <==> Reads(t, g))
  {
  }

  /** An edit leaves each field it names at the last value given, every other field and the lifecycle as they were. */
  lemma {:induction false} SetFieldsRead(t: Task, fields: seq<Field>, g: Field)
    ensures (forall i :: 0 <= i < |fields| ==> Slot(fields[i]) != Slot(g)) ==> (Reads(SetFields(t, fields), g) <==> Reads(t, g))
    ensures (exists i :: 0 <= i < |fields| && fields[i] == g && forall j :: i < j < |fields| ==> Slot(fields[j]) != Slot(g))
              ==> Reads(SetFields(t, fields), g)
    ensures var u := SetFields(t, fields);
            u.creator == t.creator && u.state == t.state && u.note == t.note && u.evidence == t.evidence && u.touchedRev == t.touchedRev
  {
    hide Slot, Reads;
    if fields != [] {
      var n := |fields| - 1;
      SetFieldsRead(t, fields[..n], g);
      SetFieldReads(SetFields(t, fields[..n]), fields[n], g);
      if i :| 0 <= i < |fields| && fields[i] == g && forall j :: i < j < |fields| ==> Slot(fields[j]) != Slot(g) {
        if i < n { assert fields[..n][i] == g; }
      }
    }
  }

  lemma {:induction false} SetFieldsKeeps(t: Task, fields: seq<Field>)
    requires forall i :: 0 <= i < |fields| ==> FieldShape(fields[i])
    ensures var t' := SetFields(t, fields);
            && t'.creator == t.creator && t'.state == t.state && t'.note == t.note
            && t'.evidence == t.evidence && t'.touchedRev == t.touchedRev
            && (AlmostShaped(t) ==> AlmostShaped(t'))
            && (OneLine(t.title) || (exists i :: 0 <= i < |fields| && fields[i].Title?) ==> OneLine(t'.title))
            && ((t.assignees != [] && Unrepeated(t.assignees)) || (exists i :: 0 <= i < |fields| && fields[i].Assignees?)
                ==> t'.assignees != [] && Unrepeated(t'.assignees))
  {
    hide OneLine, ValidWhen, ValidRepeat, WireDate, Unrepeated;
    if fields != [] {
      var n := |fields| - 1;
      SetFieldsKeeps(t, fields[..n]);
      assert fields == fields[..n] + [fields[n]];
      SetFieldKeeps(SetFields(t, fields[..n]), fields[n]);
    }
  }

  lemma SetFieldKeeps(t: Task, f: Field)
    requires FieldShape(f)
    ensures var t' := SetField(t, f);
            && t'.creator == t.creator && t'.state == t.state && t'.note == t.note
            && t'.evidence == t.evidence && t'.touchedRev == t.touchedRev
            && (AlmostShaped(t) ==> AlmostShaped(t'))
            && (OneLine(t.title) || f.Title? ==> OneLine(t'.title))
            && ((t.assignees != [] && Unrepeated(t.assignees)) || f.Assignees?
                ==> t'.assignees != [] && Unrepeated(t'.assignees))
  {
    hide OneLine, ValidWhen, ValidRepeat, WireDate, Unrepeated;
  }

  lemma ShapedFromParts(t: Task)
    requires AlmostShaped(t) && OneLine(t.title) && t.assignees != [] && Unrepeated(t.assignees)
    ensures Shaped(t)
  {
    hide OneLine, ValidWhen, ValidRepeat, WireDate;
  }

  lemma AlmostFromShaped(t: Task)
    requires Shaped(t)
    ensures AlmostShaped(t)
  {
    hide ValidWhen, ValidRepeat, WireDate;
    assert !Blank("t") by { assert !White("t"[0]); }
  }

  lemma NewTaskAlmostShaped(creator: string, rev: nat)
    ensures AlmostShaped(NewTask(creator, rev))
  {
    assert !Blank("t") by { assert !White("t"[0]); }
  }

  /** What every act keeps of the working copy, before any check. */
  ghost predicate Working(before: Tasks, tasks: Tasks, touched: set<TaskId>, rev: nat) {
    && before.Keys <= tasks.Keys && touched <= tasks.Keys
    && (forall id <- tasks :: id !in touched ==> id in before && tasks[id] == before[id])
    && (forall id <- before :: tasks[id].creator == before[id].creator)
    && (forall id <- tasks :: Shaped(tasks[id]) && Recorded(tasks[id], rev))
  }

  lemma PutKeepsWorking(before: Tasks, tasks: Tasks, touched: set<TaskId>, id: TaskId, t: Task, rev: nat)
    requires Working(before, tasks, touched, rev) && Shaped(t) && Recorded(t, rev)
    requires id in before ==> t.creator == before[id].creator
    ensures Working(before, tasks[id := t], touched + {id}, rev)
  {
    hide Shaped, Recorded;
  }

  lemma EditedTask(t: Task, fields: seq<Field>, rev: nat)
    requires Shaped(t) && Recorded(t, rev) && forall i :: 0 <= i < |fields| ==> FieldShape(fields[i])
    ensures var t' := SetFields(t, fields).(touchedRev := rev);
            Shaped(t') && Recorded(t', rev) && t'.creator == t.creator
  {
    hide Shaped, FieldShape, HasNote, OneLine, AlmostShaped;
    AlmostFromShaped(t);
    ShapedBasics(t);
    SetFieldsKeeps(t, fields);
    var t' := SetFields(t, fields);
    ShapedFromParts(t');
    ShapedIgnoresRecord(t', t'.state, t'.note, t'.evidence, rev);
  }

  lemma AddedTask(creator: string, fields: seq<Field>, rev: nat)
    requires forall i :: 0 <= i < |fields| ==> FieldShape(fields[i])
    requires exists i :: 0 <= i < |fields| && fields[i].Title?
    requires exists i :: 0 <= i < |fields| && fields[i].Assignees?
    ensures var t := SetFields(NewTask(creator, rev), fields);
            Shaped(t) && Recorded(t, rev) && t.creator == creator
  {
    hide Shaped, FieldShape, OneLine, AlmostShaped;
    NewTaskAlmostShaped(creator, rev);
    SetFieldsKeeps(NewTask(creator, rev), fields);
    ShapedFromParts(SetFields(NewTask(creator, rev), fields));
  }

  lemma ActKeepsWorking(before: Tasks, tasks: Tasks, touched: set<TaskId>, act: Act, rev: nat)
    requires Working(before, tasks, touched, rev) && ActShape(act)
    ensures match ApplyAct(tasks, act, rev)
            case Err(_) => true
            case Ok((tasks', id)) => Working(before, tasks', touched + {id}, rev)
  {
    hide Shaped, FieldShape, HasNote, Transition, SetFields;
    match act
    case Add(id, creator, fields) =>
      if id.value !in tasks {
        AddedTask(creator.value, fields, rev);
        PutKeepsWorking(before, tasks, touched, id.value, SetFields(NewTask(creator.value, rev), fields), rev);
      }
    case Set(id, fields) =>
      if id in tasks {
        EditedTask(tasks[id], fields, rev);
        PutKeepsWorking(before, tasks, touched, id, SetFields(tasks[id], fields).(touchedRev := rev), rev);
      }
    case State(id, to, note, evidence) =>
      if Transition(tasks, id, to, note).None? {
        var t := tasks[id].(state := to, note := note, evidence := evidence, touchedRev := rev);
        ShapedIgnoresRecord(tasks[id], to, note, evidence, rev);
        PutKeepsWorking(before, tasks, touched, id, t, rev);
      }
  }

  lemma ShapedBasics(t: Task)
    requires Shaped(t)
    ensures OneLine(t.title) && t.assignees != [] && Unrepeated(t.assignees)
  {
  }

  lemma ShapedIgnoresRecord(t: Task, state: TaskState, note: Option<string>, evidence: seq<string>, rev: nat)
    requires Shaped(t)
    ensures Shaped(t.(state := state, note := note, evidence := evidence, touchedRev := rev))
  {
    hide OneLine, ValidWhen, ValidRepeat, WireDate, Unrepeated;
  }

  lemma {:induction false} ActsKeepWorking(before: Tasks, tasks: Tasks, touched: set<TaskId>, acts: seq<Act>, rev: nat)
    requires Working(before, tasks, touched, rev) && forall i :: 0 <= i < |acts| ==> ActShape(acts[i])
    ensures match ApplyActs(tasks, touched, acts, rev)
            case Err(_) => true
            case Ok((tasks', touched')) => Working(before, tasks', touched', rev)
    decreases |acts|
  {
    hide Working, ActShape, ApplyAct;
    if acts != [] {
      ActKeepsWorking(before, tasks, touched, acts[0], rev);
      match ApplyAct(tasks, acts[0], rev)
      case Err(_) =>
      case Ok((tasks', id)) =>
        ActsKeepWorking(before, tasks', touched + {id}, acts[1..], rev);
    }
  }

  // --------------------------------------------------- what the checks add

  /** The rules that relate a task to the seats, its own fields and other tasks. */
  ghost predicate Linked(tasks: Tasks, id: TaskId, t: Task, seats: set<string>) {
    && t.creator in seats
    && (forall i :: 0 <= i < |t.assignees| ==> t.assignees[i] in seats)
    && (t.after.Some? && t.due.Some? ==> t.after.value <= t.due.value)
    && (t.repeat.Some? ==> t.when.Some? && ValidRepeat(t.repeat.value))
    && (t.repeat.Some? ==> (t.state.Todo? || t.state.Cancelled?) && t.blockedBy == [])
    && (if t.repeat.Some? then
          (forall i :: 0 <= i < |t.skip| ==> Occurs(StartDate(t.when.value), t.repeat.value, t.skip[i]))
          && (forall k <- t.moved :: Occurs(StartDate(t.when.value), t.repeat.value, k))
        else t.skip == [] && t.moved == map[])
    && (forall i :: 0 <= i < |t.blockedBy| ==>
          t.blockedBy[i] != id && t.blockedBy[i] in tasks && !tasks[t.blockedBy[i]].repeat.Some?)
  }

  ghost predicate WellFormed(b: BoardState, seats: set<string>) {
    && (forall id <- b.tasks :: Shaped(b.tasks[id]) && Recorded(b.tasks[id], b.rev) && Linked(b.tasks, id, b.tasks[id], seats))
    && TaskGraph.Acyclic(Links(b.tasks))
  }

  /** A key that is not stray occurs. */
  lemma KeptKeyOccurs(t: Task, keys: seq<int>, i: nat)
    requires t.when.Some? && t.repeat.Some? && ValidRepeat(t.repeat.value) && ValidWhen(t.when.value)
    requires i < |keys| && StrayKey(t.when.value, t.repeat.value, keys).None?
    ensures Occurs(StartDate(t.when.value), t.repeat.value, keys[i])
  {
    hide Occurs, IsOccurrence, ValidWhen, ValidRepeat, StrayKey;
    IsOccurrenceIsExact(t.when.value, t.repeat.value, keys[i]);
  }

  lemma KeysAreOccurrences(t: Task)
    requires t.when.Some? && t.repeat.Some? && ValidRepeat(t.repeat.value) && ValidWhen(t.when.value)
    requires StrayKey(t.when.value, t.repeat.value, t.skip + Keys(t.moved.Keys)).None?
    ensures forall i :: 0 <= i < |t.skip| ==> Occurs(StartDate(t.when.value), t.repeat.value, t.skip[i])
    ensures forall k <- t.moved :: Occurs(StartDate(t.when.value), t.repeat.value, k)
  {
    assert 1 <= t.repeat.value.interval;
    hide Occurs, ValidWhen, ValidRepeat, StrayKey, Keys;
    var moved := Keys(t.moved.Keys);
    var keys := t.skip + moved;
    forall i | 0 <= i < |t.skip|
      ensures Occurs(StartDate(t.when.value), t.repeat.value, t.skip[i])
    {
      KeptKeyOccurs(t, keys, i);
    }
    forall k <- t.moved
      ensures Occurs(StartDate(t.when.value), t.repeat.value, k)
    {
      assert k in moved;
      var j :| 0 <= j < |moved| && moved[j] == k;
      KeptKeyOccurs(t, keys, |t.skip| + j);
    }
  }

  lemma CheckedIsLinked(tasks: Tasks, id: TaskId, t: Task, seats: set<string>)
    requires Shaped(t) && CheckTask(tasks, id, t, seats).None?
    ensures Linked(tasks, id, t, seats)
  {
    hide Occurs, ValidWhen, OneLine;
    assert StrayLink(tasks, id, t, t.blockedBy).None?;
    if IsSeries(t) {
      KeysAreOccurrences(t);
      assert t.blockedBy == [];
    }
  }

  lemma KeyOccurs(t: Task, keys: seq<int>, i: nat)
    requires t.when.Some? && t.repeat.Some? && ValidRepeat(t.repeat.value) && ValidWhen(t.when.value)
    requires keys == t.skip + Keys(t.moved.Keys) && i < |keys|
    requires forall i :: 0 <= i < |t.skip| ==> Occurs(StartDate(t.when.value), t.repeat.value, t.skip[i])
    requires forall k <- t.moved :: Occurs(StartDate(t.when.value), t.repeat.value, k)
    ensures IsOccurrence(t.when.value, t.repeat.value, keys[i])
  {
    hide Occurs, IsOccurrence, Keys, ValidWhen, ValidRepeat;
    var moved := Keys(t.moved.Keys);
    if i >= |t.skip| { assert keys[i] == moved[i - |t.skip|] && keys[i] in moved; }
    IsOccurrenceIsExact(t.when.value, t.repeat.value, keys[i]);
  }

  lemma OccurrencesAreKeys(t: Task)
    requires t.when.Some? && t.repeat.Some? && ValidRepeat(t.repeat.value) && ValidWhen(t.when.value)
    requires forall i :: 0 <= i < |t.skip| ==> Occurs(StartDate(t.when.value), t.repeat.value, t.skip[i])
    requires forall k <- t.moved :: Occurs(StartDate(t.when.value), t.repeat.value, k)
    ensures StrayKey(t.when.value, t.repeat.value, t.skip + Keys(t.moved.Keys)).None?
  {
    hide Occurs, IsOccurrence, Keys, StrayKey, ValidRepeat, ValidWhen;
    var keys := t.skip + Keys(t.moved.Keys);
    forall i | 0 <= i < |keys|
      ensures IsOccurrence(t.when.value, t.repeat.value, keys[i])
    {
      KeyOccurs(t, keys, i);
    }
  }

  /** The checks of one task accept exactly the soundly linked ones. */
  lemma CheckedIffLinked(tasks: Tasks, id: TaskId, t: Task, seats: set<string>)
    requires Shaped(t)
    ensures CheckTask(tasks, id, t, seats).None? <==> Linked(tasks, id, t, seats)
  {
    hide Occurs, ValidWhen, OneLine, StrayKey;
    if CheckTask(tasks, id, t, seats).None? {
      CheckedIsLinked(tasks, id, t, seats);
    }
    if Linked(tasks, id, t, seats) {
      if IsSeries(t) { OccurrencesAreKeys(t); }
      assert StrayLink(tasks, id, t, t.blockedBy).None?;
    }
  }

  /** In a soundly linked board nothing depends on a series. */
  lemma NoDependent(tasks: Tasks, id: TaskId, seats: set<string>)
    requires id in tasks && IsSeries(tasks[id]) && forall d <- tasks :: Linked(tasks, d, tasks[d], seats)
    ensures DependentOf(tasks, Ids(tasks.Keys), id).None?
  {
    hide Occurs, Ids, DependentOf, ValidRepeat;
    var ids := Ids(tasks.Keys);
    forall i | 0 <= i < |ids|
      ensures ids[i] in tasks && id !in tasks[ids[i]].blockedBy
    {
      assert ids[i] in ids;
      assert Linked(tasks, ids[i], tasks[ids[i]], seats);
    }
  }

  /** A board whose tasks are all soundly linked passes, whatever was touched. */
  lemma {:induction false} LinkedPasses(tasks: Tasks, touched: seq<TaskId>, seats: set<string>)
    requires ValidRepeats(tasks) && forall id <- tasks :: Shaped(tasks[id]) && Linked(tasks, id, tasks[id], seats)
    ensures CheckTouched(tasks, touched, seats).None?
  {
    hide CheckTask, Shaped, Linked, Ids, DependentOf, ValidRepeat;
    if touched != [] {
      LinkedPasses(tasks, touched[1..], seats);
      var id := touched[0];
      if id in tasks {
        CheckedIffLinked(tasks, id, tasks[id], seats);
        if IsSeries(tasks[id]) { NoDependent(tasks, id, seats); }
      }
    }
  }

  lemma {:induction false} TouchedAreChecked(tasks: Tasks, touched: seq<TaskId>, seats: set<string>, id: TaskId)
    requires ValidRepeats(tasks) && CheckTouched(tasks, touched, seats).None? && id in touched && id in tasks
    ensures CheckTask(tasks, id, tasks[id], seats).None?
    ensures IsSeries(tasks[id]) ==> forall d <- tasks :: id !in tasks[d].blockedBy
  {
    hide CheckTask;
    if touched[0] == id {
      if IsSeries(tasks[id]) {
        var ids := Ids(tasks.Keys);
        forall d <- tasks
          ensures id !in tasks[d].blockedBy
        {
          assert d in ids;
        }
      }
    } else {
      TouchedAreChecked(tasks, touched[1..], seats, id);
    }
  }

  // ----------------------------------------------------------------- the fold

  function ApplyChangeset(b: BoardState, acts: seq<Act>, rev: nat, seats: set<string>): (r: Result<Tasks, Fault>)
    requires ValidRepeats(b.tasks) && forall i :: 0 <= i < |acts| ==> ActShape(acts[i])
    ensures r.Ok? ==> ValidRepeats(r.value)
  {
    match ApplyActs(b.tasks, {}, acts, rev)
    case Err(f) => Err(f)
    case Ok((tasks, touched)) =>
      ActsKeepRepeats(b.tasks, {}, acts, rev);
      var f := CheckResult(tasks, Ids(touched), seats);
      if f.Some? then Err(f.value) else Ok(tasks)
  }

  lemma {:induction false} FieldsKeepRepeat(t: Task, fields: seq<Field>)
    requires t.repeat.Some? ==> ValidRepeat(t.repeat.value)
    requires forall i :: 0 <= i < |fields| ==> FieldShape(fields[i])
    ensures SetFields(t, fields).repeat.Some? ==> ValidRepeat(SetFields(t, fields).repeat.value)
  {
    hide ValidRepeat;
    if fields != [] {
      FieldsKeepRepeat(t, fields[..|fields| - 1]);
    }
  }

  lemma {:induction false} ActsKeepRepeats(tasks: Tasks, touched: set<TaskId>, acts: seq<Act>, rev: nat)
    requires ValidRepeats(tasks) && forall i :: 0 <= i < |acts| ==> ActShape(acts[i])
    ensures match ApplyActs(tasks, touched, acts, rev)
            case Err(_) => true
            case Ok((tasks', _)) => ValidRepeats(tasks')
    decreases |acts|
  {
    hide ValidRepeat, FieldShape, Transition;
    if acts != [] {
      match ApplyAct(tasks, acts[0], rev)
      case Err(_) =>
      case Ok((tasks', id)) =>
        assert ActShape(acts[0]);
        match acts[0] {
          case Add(_, creator, fields) => FieldsKeepRepeat(NewTask(creator.value, rev), fields);
          case Set(id, fields) => FieldsKeepRepeat(tasks[id], fields);
          case State(_, _, _, _) =>
        }
        ActsKeepRepeats(tasks', touched + {id}, acts[1..], rev);
    }
  }

  datatype FoldStep = Applied | Void(fault: Fault) | Skipped

  /** One applied payload: a changeset applies whole or is void, anything else is skipped. */
  function FoldOne(b: BoardState, p: Payload, seats: set<string>): (r: (BoardState, FoldStep))
    requires ValidRepeats(b.tasks)
    ensures ValidRepeats(r.0.tasks)
  {
    if p.Foreign? then (b, Skipped)
    else
      var rev := SaturatingSucc(b.rev);
      match Parse(p)
      case Err(f) => (BoardState(rev, b.tasks), Void(f))
      case Ok(acts) =>
        match ApplyChangeset(b, acts, rev, seats)
        case Err(f) => (BoardState(rev, b.tasks), Void(f))
        case Ok(tasks) => (BoardState(rev, tasks), Applied)
  }

  function FoldOnto(b: BoardState, applied: seq<Payload>, seats: set<string>): (r: BoardState)
    requires ValidRepeats(b.tasks)
    ensures ValidRepeats(r.tasks)
  {
    if applied == [] then b
    else FoldOne(FoldOnto(b, applied[..|applied| - 1], seats), applied[|applied| - 1], seats).0
  }

  function Fold(applied: seq<Payload>, seats: set<string>): (b: BoardState)
    ensures ValidRepeats(b.tasks)
  {
    FoldOnto(EMPTY, applied, seats)
  }

  // -------------------------------------------------------------- the theorem

  /** Untouched tasks stay linked: their targets still exist and did not become series. */
  lemma UntouchedStaysLinked(before: BoardState, tasks: Tasks, touched: set<TaskId>, seats: set<string>, rev: nat, id: TaskId)
    requires WellFormed(before, seats) && Working(before.tasks, tasks, touched, rev)
    requires ValidRepeats(tasks) && CheckTouched(tasks, Ids(touched), seats).None?
    requires id in tasks && id !in touched
    ensures Linked(tasks, id, tasks[id], seats)
  {
    hide Shaped, Recorded, Occurs, CheckTask, CheckTouched, ValidRepeat, TaskGraph.Acyclic;
    var t := tasks[id];
    assert Linked(before.tasks, id, before.tasks[id], seats);
    forall i | 0 <= i < |t.blockedBy|
      ensures t.blockedBy[i] != id && t.blockedBy[i] in tasks && !IsSeries(tasks[t.blockedBy[i]])
    {
      var b := t.blockedBy[i];
      if b in touched {
        TouchedAreChecked(tasks, Ids(touched), seats, b);
      }
    }
  }

  lemma ChangesetKeepsAcyclic(before: BoardState, tasks: Tasks, touched: set<TaskId>, seats: set<string>, rev: nat)
    requires WellFormed(before, seats) && Working(before.tasks, tasks, touched, rev)
    requires TaskGraph.FindCycle(Links(tasks), Ids(touched)).None?
    ensures TaskGraph.Acyclic(Links(tasks))
  {
    hide Shaped, Recorded, Linked, TaskGraph.Acyclic, TaskGraph.OnCycle, TaskGraph.Reaches, TaskGraph.FindCycle;
    TaskGraph.FindCycleExact(Links(tasks), Ids(touched));
    TaskGraph.TouchedSuffices(Links(before.tasks), Links(tasks), Ids(touched));
  }

  lemma ChangesetKeepsWellFormed(before: BoardState, acts: seq<Act>, seats: set<string>, rev: nat)
    requires WellFormed(before, seats) && before.rev <= rev && ValidRepeats(before.tasks)
    requires forall i :: 0 <= i < |acts| ==> ActShape(acts[i])
    ensures match ApplyChangeset(before, acts, rev, seats)
            case Err(_) => true
            case Ok(tasks) =>
              && WellFormed(BoardState(rev, tasks), seats)
              && before.tasks.Keys <= tasks.Keys
              && forall id <- before.tasks :: tasks[id].creator == before.tasks[id].creator
  {
    hide Shaped, Linked, ActShape, ApplyActs, CheckTouched, TaskGraph.Acyclic, TaskGraph.FindCycle, Says, ValidRepeat, Links, Ids;
    assert Working(before.tasks, before.tasks, {}, rev);
    ActsKeepWorking(before.tasks, before.tasks, {}, acts, rev);
    match ApplyActs(before.tasks, {}, acts, rev)
    case Err(_) =>
    case Ok((tasks, touched)) =>
      ActsKeepRepeats(before.tasks, {}, acts, rev);
      if CheckResult(tasks, Ids(touched), seats).None? {
        forall id <- tasks
          ensures Linked(tasks, id, tasks[id], seats)
        {
          if id in touched {
            TouchedAreChecked(tasks, Ids(touched), seats, id);
            CheckedIsLinked(tasks, id, tasks[id], seats);
          } else {
            UntouchedStaysLinked(before, tasks, touched, seats, rev, id);
          }
        }
        ChangesetKeepsAcyclic(before, tasks, touched, seats, rev);
      }
  }

  /** Checking the touched tasks alone accepts exactly the changesets whose whole result is well formed. */
  lemma AcceptedIffWellFormed(before: BoardState, acts: seq<Act>, seats: set<string>, rev: nat)
    requires WellFormed(before, seats) && before.rev <= rev && ValidRepeats(before.tasks)
    requires forall i :: 0 <= i < |acts| ==> ActShape(acts[i])
    ensures var done, r := ApplyActs(before.tasks, {}, acts, rev), ApplyChangeset(before, acts, rev, seats);
            if done.Err? then r == Err(done.error)
            else if WellFormed(BoardState(rev, done.value.0), seats) then r == Ok(done.value.0)
            else r.Err?
  {
    hide Shaped, Recorded, Linked, ActShape, ApplyActs, CheckTouched, TaskGraph.Acyclic, TaskGraph.FindCycle, TaskGraph.OnCycle, TaskGraph.Reaches, ValidRepeat, ValidRepeats, Links, Ids;
    ChangesetKeepsWellFormed(before, acts, seats, rev);
    match ApplyActs(before.tasks, {}, acts, rev)
    case Err(_) =>
    case Ok((tasks, touched)) =>
      ActsKeepRepeats(before.tasks, {}, acts, rev);
      if WellFormed(BoardState(rev, tasks), seats) {
        LinkedPasses(tasks, Ids(touched), seats);
        AcyclicPasses(Links(tasks), Ids(touched));
      }
  }

  lemma AcyclicPasses(g: TaskGraph.Graph, roots: seq<TaskId>)
    requires TaskGraph.Acyclic(g)
    ensures TaskGraph.FindCycle(g, roots).None?
  {
    hide TaskGraph.FindCycle, TaskGraph.OnCycle, TaskGraph.Reaches;
    TaskGraph.FindCycleExact(g, roots);
  }

  lemma VoidKeepsWellFormed(b: BoardState, rev: nat, seats: set<string>)
    requires WellFormed(b, seats) && b.rev <= rev
    ensures WellFormed(BoardState(rev, b.tasks), seats)
  {
    hide Shaped, Linked, TaskGraph.Acyclic;
  }

  lemma FoldOneKeepsWellFormed(b: BoardState, p: Payload, seats: set<string>)
    requires WellFormed(b, seats) && ValidRepeats(b.tasks) && b.rev <= U64_MAX
    ensures var (b', _) := FoldOne(b, p, seats);
            && WellFormed(b', seats) && b.rev <= b'.rev <= U64_MAX
            && b.tasks.Keys <= b'.tasks.Keys
            && forall id <- b.tasks :: b'.tasks[id].creator == b.tasks[id].creator
  {
    hide WellFormed, ApplyChangeset, ActShape, ValidRepeats;
    if p.Ops? {
      var rev := SaturatingSucc(b.rev);
      VoidKeepsWellFormed(b, rev, seats);
      match Parse(p)
      case Err(_) =>
      case Ok(acts) =>
        ChangesetKeepsWellFormed(b, acts, seats, rev);
    }
  }

  lemma EmptyWellFormed(seats: set<string>)
    ensures WellFormed(EMPTY, seats)
  {
    forall x
      ensures !TaskGraph.OnCycle(Links(map[]), x)
    {
    }
  }

  /** Every board the fold can reach, from any payloads, is well formed. */
  lemma {:induction false} FoldIsWellFormed(applied: seq<Payload>, seats: set<string>)
    ensures WellFormed(Fold(applied, seats), seats) && Fold(applied, seats).rev <= U64_MAX
  {
    hide WellFormed, FoldOne, ValidRepeats;
    if applied == [] {
      EmptyWellFormed(seats);
    } else {
      FoldIsWellFormed(applied[..|applied| - 1], seats);
      FoldOneKeepsWellFormed(Fold(applied[..|applied| - 1], seats), applied[|applied| - 1], seats);
    }
  }

  /** A task, once added, stays and keeps its creator through every later payload. */
  lemma {:induction false} TasksStay(prefix: seq<Payload>, more: seq<Payload>, seats: set<string>)
    ensures var b, b' := Fold(prefix, seats), Fold(prefix + more, seats);
            && b.tasks.Keys <= b'.tasks.Keys
            && forall id <- b.tasks :: b'.tasks[id].creator == b.tasks[id].creator
  {
    hide WellFormed, FoldOne, ValidRepeats;
    if more == [] {
      assert prefix + more == prefix;
    } else {
      var n := |more| - 1;
      TasksStay(prefix, more[..n], seats);
      var all := prefix + more;
      assert all[..|all| - 1] == prefix + more[..n] && all[|all| - 1] == more[n];
      FoldIsWellFormed(prefix + more[..n], seats);
      FoldOneKeepsWellFormed(Fold(prefix + more[..n], seats), more[n], seats);
    }
  }

  /** Folding a cached prefix further is folding the whole log. */
  lemma {:induction false} FoldExtends(b: BoardState, prefix: seq<Payload>, more: seq<Payload>, seats: set<string>)
    requires ValidRepeats(b.tasks)
    ensures FoldOnto(b, prefix + more, seats) == FoldOnto(FoldOnto(b, prefix, seats), more, seats)
  {
    hide FoldOne, ValidRepeats;
    if more == [] {
      assert prefix + more == prefix;
    } else {
      var n := |more| - 1;
      FoldExtends(b, prefix, more[..n], seats);
      var all := prefix + more;
      assert all[..|all| - 1] == prefix + more[..n] && all[|all| - 1] == more[n];
    }
  }
}
