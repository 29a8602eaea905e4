/**
 What an accepted changeset does to each task, said act by act and not by how
 the acts are applied: the last transition decides the lifecycle, the last value
 given decides each field, and what no act names stays.
 */
module KanbanEffect {
  import opened Prelude
  import opened Board
  import opened KanbanFold
  import opened Windows
  import opened Series
  import opened Sorting
  import TaskGraph

  predicate Names(a: Act, id: TaskId) {
    match a
    case Add(x, _, _) => x == Some(id)
    case Set(x, _) => x == id
    case State(x, _, _, _) => x == id
  }

  predicate Moves(a: Act, id: TaskId) {
    a.State? && a.id == id
  }

  /** The field values an act gives to the task it names. */
  function Given(a: Act): seq<Field> {
    match a
    case Add(_, _, fields) => fields
    case Set(_, fields) => fields
    case State(_, _, _, _) => []
  }

  ghost predicate SomeNames(acts: seq<Act>, id: TaskId) {
    exists i :: 0 <= i < |acts| && Names(acts[i], id)
  }

  ghost predicate LastMove(acts: seq<Act>, id: TaskId, i: int) {
    && 0 <= i < |acts| && Moves(acts[i], id)
    && forall k :: i < k < |acts| ==> !Moves(acts[k], id)
  }

  /** Act `i` gives the task a value for its `j`-th field. */
  predicate Gives(acts: seq<Act>, id: TaskId, i: int, j: int) {
    0 <= i < |acts| && Names(acts[i], id) && 0 <= j < |Given(acts[i])|
  }

  /** No later value is given for the same field. */
  ghost predicate LastGiven(acts: seq<Act>, id: TaskId, i: int, j: int) {
    && Gives(acts, id, i, j)
    && forall k, l :: Gives(acts, id, k, l) && (k > i || (k == i && l > j)) ==> Slot(Given(acts[k])[l]) != Slot(Given(acts[i])[j])
  }

  /** The value a new task has where none is given. */
  predicate IsBlankField(f: Field) {
    match f
    case Title(v) => v == []
    case Kind(v) => v.None?
    case Assignees(v) => v == []
    case SizeIs(v) => v.None?
    case BlockedBy(v) => v == []
    case Due(v) => v.None?
    case After(v) => v.None?
    case WhenIs(v) => v.None?
    case RepeatIs(v) => v.None?
    case Skip(v) => v == []
    case Moved(v) => v == map[]
    case Description(v) => v.None?
    case Acceptance(v) => v == []
    case OutOfScope(v) => v == []
  }

  // ------------------------------------------------------------- what is decided

  /** The last transition decides the lifecycle; without one it is the old one, or a new task's. */
  ghost predicate LifeDecided(was: Option<Task>, acts: seq<Act>, id: TaskId, t: Task) {
    && (forall i :: LastMove(acts, id, i) ==>
          t.state == acts[i].to && t.note == acts[i].note && t.evidence == acts[i].evidence)
    && ((forall i :: 0 <= i < |acts| ==> !Moves(acts[i], id)) ==>
          if was.Some? then t.state == was.value.state && t.note == was.value.note && t.evidence == was.value.evidence
          else t.state.Todo? && t.note.None? && t.evidence == [])
  }

  /** The last value given decides a field; without one it is the old one, or blank. */
  ghost predicate FieldDecided(was: Option<Task>, acts: seq<Act>, id: TaskId, t: Task, g: Field) {
    && (forall i, j :: LastGiven(acts, id, i, j) && Given(acts[i])[j] == g ==> Reads(t, g))
    && ((forall i, j :: Gives(acts, id, i, j) ==> Slot(Given(acts[i])[j]) != Slot(g)) ==>
          (Reads(t, g) <==> if was.Some? then Reads(was.value, g) else IsBlankField(g)))
  }

  /** A task keeps its creator; a new one has the one its addition names. */
  ghost predicate CreatorDecided(was: Option<Task>, acts: seq<Act>, id: TaskId, t: Task) {
    if was.Some? then t.creator == was.value.creator
    else exists i :: 0 <= i < |acts| && acts[i].Add? && Names(acts[i], id)
                     && t.creator == if acts[i].creator.Some? then acts[i].creator.value else []
  }

  ghost predicate Decided(was: Option<Task>, acts: seq<Act>, id: TaskId, now: Option<Task>, rev: nat) {
    if !SomeNames(acts, id) then now == was
    else
      && now.Some? && now.value.touchedRev == rev
      && LifeDecided(was, acts, id, now.value) && CreatorDecided(was, acts, id, now.value)
      && forall g :: FieldDecided(was, acts, id, now.value, g)
  }

  function TaskAt(tasks: Tasks, id: TaskId): Option<Task> {
    if id in tasks then Some(tasks[id]) else None
  }

  // ------------------------------------------------------------------- one act

  lemma NewTaskReads(creator: string, rev: nat, g: Field)
    ensures Reads(NewTask(creator, rev), g) <==> IsBlankField(g)
  {
  }

  /** What one edit leaves in each field. */
  lemma EditDecides(was: Task, fields: seq<Field>, g: Field)
    ensures var t := SetFields(was, fields);
            && ((forall j :: 0 <= j < |fields| ==> Slot(fields[j]) != Slot(g)) ==> (Reads(t, g) <==> Reads(was, g)))
            && (forall j :: 0 <= j < |fields| && fields[j] == g && (forall l :: j < l < |fields| ==> Slot(fields[l]) != Slot(g)) ==> Reads(t, g))
            && t.creator == was.creator && t.state == was.state && t.note == was.note && t.evidence == was.evidence && t.touchedRev == was.touchedRev
  {
    hide Slot, Reads;
    SetFieldsRead(was, fields, g);
  }

  /** Bumping the revision changes no field. */
  lemma RevIsNoField(t: Task, rev: nat, g: Field)
    ensures Reads(t.(touchedRev := rev), g) <==> Reads(t, g)
  {
  }

  lemma LifeIsNoField(t: Task, state: TaskState, note: Option<string>, evidence: seq<string>, rev: nat, g: Field)
    ensures Reads(t.(state := state, note := note, evidence := evidence, touchedRev := rev), g) <==> Reads(t, g)
  {
  }

  lemma OneGives(a: Act, id: TaskId, g: Field)
    requires Names(a, id)
    ensures (forall i, j :: Gives([a], id, i, j) ==> Slot(Given([a][i])[j]) != Slot(g)) ==>
            forall j :: 0 <= j < |Given(a)| ==> Slot(Given(a)[j]) != Slot(g)
    ensures forall i, j :: LastGiven([a], id, i, j) ==>
              i == 0 && 0 <= j < |Given(a)| && forall l :: j < l < |Given(a)| ==> Slot(Given(a)[l]) != Slot(Given(a)[j])
  {
    hide Slot, Given;
    assert [a][0] == a;
    forall j | 0 <= j < |Given(a)|
      ensures Gives([a], id, 0, j) && [a][0] == a
    {
    }
    if forall i, j :: Gives([a], id, i, j) ==> Slot(Given([a][i])[j]) != Slot(g) {
      forall j | 0 <= j < |Given(a)|
        ensures Slot(Given(a)[j]) != Slot(g)
      {
        assert Gives([a], id, 0, j);
      }
    }
  }

  /** An addition or an edit: the fields given, the rest as it was. */
  lemma FieldsDecide(was: Option<Task>, a: Act, id: TaskId, from: Task, t: Task, rev: nat, g: Field)
    requires !a.State? && Names(a, id) && t == SetFields(from, Given(a)).(touchedRev := rev)
    requires was.Some? ==> from == was.value
    requires was.None? ==> exists creator: string :: from == NewTask(creator, rev)
    ensures FieldDecided(was, [a], id, t, g)
  {
    hide Slot, Reads, SetFields, NewTask, IsBlankField;
    EditDecides(from, Given(a), g);
    RevIsNoField(SetFields(from, Given(a)), rev, g);
    OneGives(a, id, g);
    if was.None? {
      var creator: string :| from == NewTask(creator, rev);
      NewTaskReads(creator, rev, g);
    }
  }

  lemma MoveKeepsFields(was: Task, a: Act, id: TaskId, rev: nat, g: Field)
    requires a.State? && Names(a, id)
    ensures FieldDecided(Some(was), [a], id, was.(state := a.to, note := a.note, evidence := a.evidence, touchedRev := rev), g)
  {
    hide Slot, Reads;
    LifeIsNoField(was, a.to, a.note, a.evidence, rev, g);
  }

  lemma AddDecides(tasks: Tasks, a: Act, id: TaskId, rev: nat)
    requires a.Add? && a.newId == Some(id) && id !in tasks
    ensures Decided(None, [a], id, Some(SetFields(NewTask(if a.creator.Some? then a.creator.value else [], rev), a.fields)), rev)
  {
    hide FieldDecided, SetFields;
    var creator := if a.creator.Some? then a.creator.value else [];
    var from := NewTask(creator, rev);
    var t := SetFields(from, a.fields);
    EditDecides(from, a.fields, Title([]));
    assert Names([a][0], id);
    assert t == t.(touchedRev := rev);
    forall g
      ensures FieldDecided(None, [a], id, t, g)
    {
      FieldsDecide(None, a, id, from, t, rev, g);
    }
  }

  lemma SetDecides(tasks: Tasks, a: Act, id: TaskId, rev: nat)
    requires a.Set? && a.id == id && id in tasks
    ensures Decided(Some(tasks[id]), [a], id, Some(SetFields(tasks[id], a.fields).(touchedRev := rev)), rev)
  {
    hide FieldDecided, SetFields;
    var t := SetFields(tasks[id], a.fields).(touchedRev := rev);
    EditDecides(tasks[id], a.fields, Title([]));
    assert Names([a][0], id);
    forall g
      ensures FieldDecided(Some(tasks[id]), [a], id, t, g)
    {
      FieldsDecide(Some(tasks[id]), a, id, tasks[id], t, rev, g);
    }
  }

  lemma MoveDecides(tasks: Tasks, a: Act, id: TaskId, rev: nat)
    requires a.State? && a.id == id && id in tasks
    ensures Decided(Some(tasks[id]), [a], id, Some(tasks[id].(state := a.to, note := a.note, evidence := a.evidence, touchedRev := rev)), rev)
  {
    hide FieldDecided;
    var t := tasks[id].(state := a.to, note := a.note, evidence := a.evidence, touchedRev := rev);
    assert Names([a][0], id) && Moves([a][0], id);
    forall g
      ensures FieldDecided(Some(tasks[id]), [a], id, t, g)
    {
      MoveKeepsFields(tasks[id], a, id, rev, g);
    }
  }

  lemma ActDecides(tasks: Tasks, a: Act, rev: nat, id: TaskId)
    requires ApplyAct(tasks, a, rev).Ok?
    ensures Decided(TaskAt(tasks, id), [a], id, TaskAt(ApplyAct(tasks, a, rev).value.0, id), rev)
    ensures Names(a, ApplyAct(tasks, a, rev).value.1)
  {
    hide Decided, SetFields, NewTask, Transition;
    if Names(a, id) {
      match a
      case Add(_, _, _) => AddDecides(tasks, a, id, rev);
      case Set(_, _) => SetDecides(tasks, a, id, rev);
      case State(_, _, _, _) => MoveDecides(tasks, a, id, rev);
    } else {
      UnnamedStays(TaskAt(tasks, id), a, id, rev);
    }
  }

  lemma UnnamedStays(was: Option<Task>, a: Act, id: TaskId, rev: nat)
    requires !Names(a, id)
    ensures Decided(was, [a], id, was, rev)
  {
  }

  // ------------------------------------------------------------- act after act

  lemma LifeCons(was: Option<Task>, mid: Task, t: Task, a: Act, rest: seq<Act>, id: TaskId)
    requires LifeDecided(was, [a], id, mid) && LifeDecided(Some(mid), rest, id, t)
    ensures LifeDecided(was, [a] + rest, id, t)
  {
    var all := [a] + rest;
    assert forall i :: 0 <= i < |rest| ==> all[i + 1] == rest[i];
    forall i | LastMove(all, id, i)
      ensures t.state == all[i].to && t.note == all[i].note && t.evidence == all[i].evidence
    {
      if i == 0 {
        assert LastMove([a], id, 0);
        forall k | 0 <= k < |rest|
          ensures !Moves(rest[k], id)
        {
          assert rest[k] == all[k + 1];
        }
      } else {
        assert LastMove(rest, id, i - 1);
      }
    }
    if forall i :: 0 <= i < |all| ==> !Moves(all[i], id) {
      assert !Moves(all[0], id);
      forall k | 0 <= k < |rest|
        ensures !Moves(rest[k], id)
      {
        assert rest[k] == all[k + 1];
      }
    }
  }

  lemma FieldCons(was: Option<Task>, mid: Task, t: Task, a: Act, rest: seq<Act>, id: TaskId, g: Field)
    requires FieldDecided(was, [a], id, mid, g) && FieldDecided(Some(mid), rest, id, t, g)
    ensures FieldDecided(was, [a] + rest, id, t, g)
  {
    hide Slot, Reads, Given, Names, IsBlankField;
    var all := [a] + rest;
    GivesCons(a, rest, id);
    forall i, j | LastGiven(all, id, i, j) && Given(all[i])[j] == g
      ensures Reads(t, g)
    {
      if i == 0 {
        LastGivenHead(a, rest, id, j);
        assert Given([a][0])[j] == g;
      } else {
        LastGivenTail(a, rest, id, i, j);
        assert Given(rest[i - 1])[j] == g;
      }
    }
  }

  lemma GivesCons(a: Act, rest: seq<Act>, id: TaskId)
    ensures var all := [a] + rest;
            && (forall i, j :: Gives([a], id, i, j) ==> Gives(all, id, i, j) && all[i] == [a][i])
            && (forall i, j :: Gives(rest, id, i, j) ==> Gives(all, id, i + 1, j) && all[i + 1] == rest[i])
  {
    hide Given, Names;
  }

  /** The last value, given by the first act: nothing after it gives one. */
  lemma LastGivenHead(a: Act, rest: seq<Act>, id: TaskId, j: int)
    requires LastGiven([a] + rest, id, 0, j)
    ensures LastGiven([a], id, 0, j)
    ensures forall k, l :: Gives(rest, id, k, l) ==> Slot(Given(rest[k])[l]) != Slot(Given(a)[j])
  {
    hide Slot, Given, Names;
    var all := [a] + rest;
    forall k, l | Gives(rest, id, k, l)
      ensures Slot(Given(rest[k])[l]) != Slot(Given(a)[j])
    {
      assert Gives(all, id, k + 1, l) && all[k + 1] == rest[k];
    }
    forall k, l | Gives([a], id, k, l) && (k > 0 || (k == 0 && l > j))
      ensures Slot(Given([a][k])[l]) != Slot(Given([a][0])[j])
    {
      assert Gives(all, id, k, l);
    }
  }

  lemma LastGivenTail(a: Act, rest: seq<Act>, id: TaskId, i: int, j: int)
    requires i > 0 && LastGiven([a] + rest, id, i, j)
    ensures LastGiven(rest, id, i - 1, j)
  {
    hide Slot, Given, Names;
    var all := [a] + rest;
    forall k, l | Gives(rest, id, k, l) && (k > i - 1 || (k == i - 1 && l > j))
      ensures Slot(Given(rest[k])[l]) != Slot(Given(rest[i - 1])[j])
    {
      assert Gives(all, id, k + 1, l) && all[k + 1] == rest[k];
    }
  }

  lemma CreatorCons(was: Option<Task>, mid: Task, t: Task, a: Act, rest: seq<Act>, id: TaskId)
    requires CreatorDecided(was, [a], id, mid) && CreatorDecided(Some(mid), rest, id, t)
    ensures CreatorDecided(was, [a] + rest, id, t)
  {
    if was.None? {
      assert ([a] + rest)[0] == a;
    }
  }

  lemma NamedLater(a: Act, rest: seq<Act>, id: TaskId)
    requires !Names(a, id)
    ensures SomeNames([a] + rest, id) <==> SomeNames(rest, id)
  {
    hide Names;
    var all := [a] + rest;
    if i :| 0 <= i < |rest| && Names(rest[i], id) { assert Names(all[i + 1], id); }
    if i :| 0 <= i < |all| && Names(all[i], id) { assert i > 0 && Names(rest[i - 1], id); }
  }

  lemma CreatorLater(was: Option<Task>, a: Act, rest: seq<Act>, id: TaskId, t: Task)
    requires CreatorDecided(was, rest, id, t)
    ensures CreatorDecided(was, [a] + rest, id, t)
  {
    hide Names;
    var all := [a] + rest;
    if was.None? {
      var i :| 0 <= i < |rest| && rest[i].Add? && Names(rest[i], id)
               && t.creator == if rest[i].creator.Some? then rest[i].creator.value else [];
      assert all[i + 1] == rest[i];
    }
  }

  /** An act on another task decides nothing of this one. */
  lemma DecidedLater(was: Option<Task>, a: Act, rest: seq<Act>, id: TaskId, now: Option<Task>, rev: nat)
    requires !Names(a, id) && Decided(was, rest, id, now, rev)
    ensures Decided(was, [a] + rest, id, now, rev)
  {
    hide SomeNames, Names, LifeDecided, FieldDecided, CreatorDecided;
    NamedLater(a, rest, id);
    if SomeNames(rest, id) {
      LifeLater(was, a, rest, id, now.value);
      CreatorLater(was, a, rest, id, now.value);
      forall g
        ensures FieldDecided(was, [a] + rest, id, now.value, g)
      {
        FieldLater(was, a, rest, id, now.value, g);
      }
    }
  }

  lemma LifeLater(was: Option<Task>, a: Act, rest: seq<Act>, id: TaskId, t: Task)
    requires !Names(a, id) && LifeDecided(was, rest, id, t)
    ensures LifeDecided(was, [a] + rest, id, t)
  {
    var all := [a] + rest;
    assert forall i :: 0 <= i < |rest| ==> all[i + 1] == rest[i];
    forall i | LastMove(all, id, i)
      ensures t.state == all[i].to && t.note == all[i].note && t.evidence == all[i].evidence
    {
      assert LastMove(rest, id, i - 1);
    }
    if forall i :: 0 <= i < |all| ==> !Moves(all[i], id) {
      forall k | 0 <= k < |rest|
        ensures !Moves(rest[k], id)
      {
        assert rest[k] == all[k + 1];
      }
    }
  }

  lemma FieldLater(was: Option<Task>, a: Act, rest: seq<Act>, id: TaskId, t: Task, g: Field)
    requires !Names(a, id) && FieldDecided(was, rest, id, t, g)
    ensures FieldDecided(was, [a] + rest, id, t, g)
  {
    hide Slot, Reads, Given, IsBlankField;
    var all := [a] + rest;
    GivesCons(a, rest, id);
    forall i, j | LastGiven(all, id, i, j) && Given(all[i])[j] == g
      ensures Reads(t, g)
    {
      LastGivenTail(a, rest, id, i, j);
      assert Given(rest[i - 1])[j] == g;
    }
  }

  lemma DecidedCons(was: Option<Task>, mid: Option<Task>, now: Option<Task>, a: Act, rest: seq<Act>, id: TaskId, rev: nat)
    requires Decided(was, [a], id, mid, rev) && Decided(mid, rest, id, now, rev)
    ensures Decided(was, [a] + rest, id, now, rev)
  {
    hide LifeDecided, FieldDecided, CreatorDecided, Names;
    var all := [a] + rest;
    if !Names(a, id) {
      NotOne(a, id);
      DecidedLater(was, a, rest, id, now, rev);
    } else {
      assert Names([a][0], id) && Names(all[0], id);
      if SomeNames(rest, id) {
        LifeCons(was, mid.value, now.value, a, rest, id);
        CreatorCons(was, mid.value, now.value, a, rest, id);
        forall g
          ensures FieldDecided(was, all, id, now.value, g)
        {
          FieldCons(was, mid.value, now.value, a, rest, id, g);
        }
      } else {
        RestIsSilent(was, mid.value, a, rest, id);
      }
    }
  }

  lemma NotOne(a: Act, id: TaskId)
    requires !Names(a, id)
    ensures !SomeNames([a], id)
  {
  }

  /** Acts that do not name the task decide nothing more. */
  lemma RestIsSilent(was: Option<Task>, t: Task, a: Act, rest: seq<Act>, id: TaskId)
    requires !SomeNames(rest, id) && LifeDecided(was, [a], id, t) && CreatorDecided(was, [a], id, t)
    requires forall g :: FieldDecided(was, [a], id, t, g)
    ensures LifeDecided(was, [a] + rest, id, t) && CreatorDecided(was, [a] + rest, id, t)
    ensures forall g :: FieldDecided(was, [a] + rest, id, t, g)
  {
    hide LifeDecided, FieldDecided;
    SilentLife(t, rest, id);
    LifeCons(was, t, t, a, rest, id);
    CreatorCons(was, t, t, a, rest, id);
    forall g
      ensures FieldDecided(was, [a] + rest, id, t, g)
    {
      SilentField(t, rest, id, g);
      FieldCons(was, t, t, a, rest, id, g);
    }
  }

  lemma SilentLife(t: Task, rest: seq<Act>, id: TaskId)
    requires !SomeNames(rest, id)
    ensures LifeDecided(Some(t), rest, id, t)
  {
    assert forall i :: 0 <= i < |rest| && Moves(rest[i], id) ==> Names(rest[i], id);
  }

  lemma SilentField(t: Task, rest: seq<Act>, id: TaskId, g: Field)
    requires !SomeNames(rest, id)
    ensures FieldDecided(Some(t), rest, id, t, g)
  {
    hide Slot, Reads, Given;
  }

  lemma {:induction false} ActsDecide(tasks: Tasks, touched: set<TaskId>, acts: seq<Act>, rev: nat, id: TaskId)
    requires ApplyActs(tasks, touched, acts, rev).Ok?
    ensures var (after, named) := ApplyActs(tasks, touched, acts, rev).value;
            && Decided(TaskAt(tasks, id), acts, id, TaskAt(after, id), rev)
            && (id in named <==> id in touched || SomeNames(acts, id))
    decreases |acts|
  {
    hide Decided, ApplyAct, Names;
    if acts == [] {
      NothingDecided(TaskAt(tasks, id), id, rev);
    } else {
      var a, rest := acts[0], acts[1..];
      var (mid, x) := ApplyAct(tasks, a, rev).value;
      assert acts == [a] + rest;
      ActDecides(tasks, a, rev, id);
      ActsDecide(mid, touched + {x}, rest, rev, id);
      DecidedCons(TaskAt(tasks, id), TaskAt(mid, id), TaskAt(ApplyActs(tasks, touched, acts, rev).value.0, id), a, rest, id, rev);
      NamesOne(a, rest, id, x);
    }
  }

  lemma NothingDecided(was: Option<Task>, id: TaskId, rev: nat)
    ensures Decided(was, [], id, was, rev)
  {
  }

  lemma NamesOne(a: Act, rest: seq<Act>, id: TaskId, x: TaskId)
    requires Names(a, x)
    ensures SomeNames([a] + rest, id) <==> id == x || SomeNames(rest, id)
  {
    var all := [a] + rest;
    assert forall i :: 0 <= i < |rest| ==> all[i + 1] == rest[i];
    if i :| 0 <= i < |rest| && Names(rest[i], id) { assert Names(all[i + 1], id); }
    if i :| 0 <= i < |all| && Names(all[i], id) { assert i > 0 ==> Names(rest[i - 1], id); }
    assert Names(all[0], x);
  }

  // --------------------------------------------------------------- the changeset

  /** An accepted changeset decides every task of the board by its acts. */
  lemma ChangesetDecides(b: BoardState, acts: seq<Act>, rev: nat, seats: set<string>, id: TaskId)
    requires ValidRepeats(b.tasks) && forall i :: 0 <= i < |acts| ==> ActShape(acts[i])
    requires ApplyChangeset(b, acts, rev, seats).Ok?
    ensures Decided(TaskAt(b.tasks, id), acts, id, TaskAt(ApplyChangeset(b, acts, rev, seats).value, id), rev)
  {
    hide Decided, ActShape, ValidRepeats, ApplyActs, CheckResult, Ids;
    ActsDecide(b.tasks, {}, acts, rev, id);
  }

  // ---------------------------------------------------- which acts can be applied

  /** The act can be applied to these tasks. */
  ghost predicate Applies(tasks: Tasks, a: Act) {
    match a
    case Add(id, _, _) => id.Some? && id.value !in tasks
    case Set(id, _) => id in tasks
    case State(id, to, note, _) =>
      && id in tasks && Legal(tasks[id], to)
      && (to.Fail? || to.Cancelled? ==> Says(note))
      && (BeginsWork(tasks[id].state, to) ==> forall b <- tasks[id].blockedBy :: Met(tasks, b))
  }

  /** What a refused act says of itself holds. */
  ghost predicate IsTrueOfAct(tasks: Tasks, a: Act, f: Fault) {
    match a
    case Add(id, _, _) =>
      if id.None? then f == Fault(IdMissing, None) else f == Fault(AlreadyExists, id) && id.value in tasks
    case Set(id, _) => f == Fault(UnknownTask, Some(id)) && id !in tasks
    case State(id, to, note, _) => IsTrueOf(tasks, id, to, note, f)
  }

  lemma ActAppliesIff(tasks: Tasks, a: Act, rev: nat)
    ensures ApplyAct(tasks, a, rev).Ok? <==> Applies(tasks, a)
    ensures ApplyAct(tasks, a, rev).Err? ==> IsTrueOfAct(tasks, a, ApplyAct(tasks, a, rev).error)
  {
    hide IsTrueOf, Legal, Says, Met, SetFields, NewTask;
  }

  lemma {:induction false} ActsJoin(tasks: Tasks, touched: set<TaskId>, a: seq<Act>, b: seq<Act>, rev: nat)
    ensures var first := ApplyActs(tasks, touched, a, rev);
            ApplyActs(tasks, touched, a + b, rev) == if first.Err? then first else ApplyActs(first.value.0, first.value.1, b, rev)
    decreases |a|
  {
    hide ApplyAct;
    if a == [] {
      assert a + b == b;
    } else {
      assert (a + b)[1..] == a[1..] + b && (a + b)[0] == a[0];
      if ApplyAct(tasks, a[0], rev).Ok? {
        var (mid, x) := ApplyAct(tasks, a[0], rev).value;
        ActsJoin(mid, touched + {x}, a[1..], b, rev);
      }
    }
  }

  /** Acts apply exactly if each applies to what the acts before it leave; else the first that does not is reported, truly. */
  lemma {:induction false} ActsApplyIff(tasks: Tasks, touched: set<TaskId>, acts: seq<Act>, rev: nat)
    ensures ApplyActs(tasks, touched, acts, rev).Ok? <==>
            forall i :: 0 <= i < |acts| ==>
              var before := ApplyActs(tasks, touched, acts[..i], rev); before.Ok? && Applies(before.value.0, acts[i])
    ensures ApplyActs(tasks, touched, acts, rev).Err? ==>
              exists i :: 0 <= i < |acts| &&
                var before := ApplyActs(tasks, touched, acts[..i], rev);
                before.Ok? && !Applies(before.value.0, acts[i]) && IsTrueOfAct(before.value.0, acts[i], ApplyActs(tasks, touched, acts, rev).error)
    decreases |acts|
  {
    hide Applies, IsTrueOfAct, ApplyAct;
    if acts != [] {
      var n := |acts| - 1;
      var front, a := acts[..n], acts[n];
      assert acts == front + [a];
      ActsApplyIff(tasks, touched, front, rev);
      ActsJoin(tasks, touched, front, [a], rev);
      assert forall i :: 0 <= i < n ==> front[i] == acts[i] && front[..i] == acts[..i];
      var before := ApplyActs(tasks, touched, front, rev);
      if before.Ok? {
        ActAppliesIff(before.value.0, a, rev);
        OneAct(before.value.0, before.value.1, a, rev);
      } else {
        var i :| 0 <= i < n && var b := ApplyActs(tasks, touched, front[..i], rev);
                              b.Ok? && !Applies(b.value.0, front[i]) && IsTrueOfAct(b.value.0, front[i], before.error);
        assert acts[..i] == front[..i];
      }
    }
  }

  lemma OneAct(tasks: Tasks, touched: set<TaskId>, a: Act, rev: nat)
    ensures var r := ApplyAct(tasks, a, rev);
            ApplyActs(tasks, touched, [a], rev) == if r.Err? then Err(r.error) else Ok((r.value.0, touched + {r.value.1}))
  {
    hide ApplyAct;
    assert [a][1..] == [];
  }

  // --------------------------------------------------------------------- the fold

  /** One payload: foreign ones change nothing, every changeset moves the revision, and only an accepted one the tasks. */
  lemma FoldOneIs(b: BoardState, p: Payload, seats: set<string>)
    requires ValidRepeats(b.tasks)
    ensures var (after, step) := FoldOne(b, p, seats);
            && (step.Skipped? <==> p.Foreign?)
            && after.rev == (if p.Foreign? || b.rev >= U64_MAX then (if p.Foreign? then b.rev else U64_MAX) else b.rev + 1)
            && (!step.Applied? ==> after.tasks == b.tasks)
            && (step.Applied? ==>
                  && p.Ops? && p.acts.Some?
                  && forall id :: Decided(TaskAt(b.tasks, id), p.acts.value, id, TaskAt(after.tasks, id), after.rev))
  {
    hide Decided, ActShape, ValidRepeats, ApplyChangeset;
    if FoldOne(b, p, seats).1.Applied? {
      forall id
        ensures Decided(TaskAt(b.tasks, id), p.acts.value, id, TaskAt(FoldOne(b, p, seats).0.tasks, id), FoldOne(b, p, seats).0.rev)
      {
        ChangesetDecides(b, p.acts.value, SaturatingSucc(b.rev), seats, id);
      }
    }
  }

  /** A payload applies exactly if it is a changeset of well-shaped acts that each apply and together leave the board well formed. */
  lemma AppliedIff(b: BoardState, p: Payload, seats: set<string>)
    requires WellFormed(b, seats) && ValidRepeats(b.tasks) && b.rev <= U64_MAX
    ensures FoldOne(b, p, seats).1.Applied? <==>
            && p.Ops? && p.acts.Some? && p.acts.value != [] && (forall i :: 0 <= i < |p.acts.value| ==> ActShape(p.acts.value[i]))
            && var done := ApplyActs(b.tasks, {}, p.acts.value, FoldOne(b, p, seats).0.rev);
               done.Ok? && WellFormed(BoardState(FoldOne(b, p, seats).0.rev, done.value.0), seats)
  {
    hide WellFormed, ActShape, ApplyChangeset, ApplyActs, ValidRepeats;
    if p.Ops? && p.acts.Some? && forall i :: 0 <= i < |p.acts.value| ==> ActShape(p.acts.value[i]) {
      var rev := SaturatingSucc(b.rev);
      AcceptedIffWellFormed(b, p.acts.value, seats, rev);
    }
  }

  // ----------------------------------------------------- what a void reason means

  /** What a task refused by the checks is told holds of it. */
  ghost predicate IsTrueOfTask(tasks: Tasks, id: TaskId, t: Task, seats: set<string>, r: Reason) {
    match r
    case CreatorNotASeat => t.creator !in seats
    case NotASeat(seat) => seat in t.assignees && seat !in seats
    case AfterLaterThanDue => t.after.Some? && t.due.Some? && t.due.value < t.after.value
    case RepeatNeedsWhen => t.repeat.Some? && t.when.None?
    case SeriesState => t.repeat.Some? && (t.state.Wip? || t.state.Success? || t.state.Fail?)
    case NoOccurrence(date) =>
      && t.repeat.Some? && ValidRepeat(t.repeat.value) && t.when.Some? && (date in t.skip || date in t.moved)
      && !Occurs(StartDate(t.when.value), t.repeat.value, date)
    case NeedsSeries => t.repeat.None? && (t.skip != [] || t.moved != map[])
    case _ => IsTrueOfLinks(tasks, id, t, t.blockedBy, r)
  }

  /** A key that is stray does not occur. */
  lemma StrayIsTrue(t: Task)
    requires t.when.Some? && ValidWhen(t.when.value) && t.repeat.Some? && ValidRepeat(t.repeat.value)
    ensures var stray := StrayKey(t.when.value, t.repeat.value, t.skip + Keys(t.moved.Keys));
            stray.Some? ==>
              (stray.value in t.skip || stray.value in t.moved) && !Occurs(StartDate(t.when.value), t.repeat.value, stray.value)
  {
    hide Occurs, IsOccurrence, ValidWhen, ValidRepeat, StrayKey, StartDate, Keys;
    var keys := Keys(t.moved.Keys);
    var stray := StrayKey(t.when.value, t.repeat.value, t.skip + keys);
    if stray.Some? {
      IsOccurrenceIsExact(t.when.value, t.repeat.value, stray.value);
      assert stray.value in t.skip || stray.value in keys;
    }
  }

  lemma LinksAreTask(tasks: Tasks, id: TaskId, t: Task, seats: set<string>)
    ensures var r := StrayLink(tasks, id, t, t.blockedBy); r.Some? ==> IsTrueOfTask(tasks, id, t, seats, r.value)
  {
    hide StrayLink, Occurs, ValidRepeat;
  }

  /** What comes before a task's dates and links. */
  lemma SeatsAreTrue(tasks: Tasks, id: TaskId, t: Task, seats: set<string>)
    requires Shaped(t) && (t.creator !in seats || StraySeat(t.assignees, seats).Some?)
    ensures CheckTask(tasks, id, t, seats).Some? && IsTrueOfTask(tasks, id, t, seats, CheckTask(tasks, id, t, seats).value)
  {
    hide Shaped, StraySeat, StrayKey, StrayLink, IsTrueOfLinks, Occurs, ValidRepeat, Keys;
  }

  /** What the series rules refuse. */
  lemma KeysAreTrue(tasks: Tasks, id: TaskId, t: Task, seats: set<string>, stray: int)
    requires t.when.Some? && t.repeat.Some? && ValidRepeat(t.repeat.value)
    requires (stray in t.skip || stray in t.moved) && !Occurs(StartDate(t.when.value), t.repeat.value, stray)
    ensures IsTrueOfTask(tasks, id, t, seats, NoOccurrence(stray))
  {
    hide Occurs, ValidRepeat, StartDate, IsTrueOfLinks;
  }

  /** A task on the calendar that recurs, past the check of its seats. */
  lemma {:induction false} SeriesIsTrue(tasks: Tasks, id: TaskId, t: Task, seats: set<string>)
    requires t.when.Some? && t.repeat.Some? && ValidRepeat(t.repeat.value)
    requires t.creator in seats && StraySeat(t.assignees, seats).None?
    requires var r := StrayLink(tasks, id, t, t.blockedBy); r.Some? ==> IsTrueOfTask(tasks, id, t, seats, r.value)
    requires var stray := StrayKey(t.when.value, t.repeat.value, t.skip + Keys(t.moved.Keys));
             stray.Some? ==> IsTrueOfTask(tasks, id, t, seats, NoOccurrence(stray.value))
    ensures CheckTask(tasks, id, t, seats).Some? ==> IsTrueOfTask(tasks, id, t, seats, CheckTask(tasks, id, t, seats).value)
  {
    hide Occurs, StrayKey, StraySeat, ValidRepeat, StrayLink, IsTrueOfLinks, StartDate, Keys;
  }

  lemma {:induction false} OtherIsTrue(tasks: Tasks, id: TaskId, t: Task, seats: set<string>)
    requires t.when.None? || t.repeat.None?
    requires t.repeat.Some? ==> ValidRepeat(t.repeat.value)
    requires t.creator in seats && StraySeat(t.assignees, seats).None?
    requires var r := StrayLink(tasks, id, t, t.blockedBy); r.Some? ==> IsTrueOfTask(tasks, id, t, seats, r.value)
    ensures CheckTask(tasks, id, t, seats).Some? ==> IsTrueOfTask(tasks, id, t, seats, CheckTask(tasks, id, t, seats).value)
  {
    hide Occurs, StrayKey, StraySeat, ValidRepeat, StrayLink, IsTrueOfLinks, StartDate, Keys;
  }

  lemma {:induction false} CheckIsTrue(tasks: Tasks, id: TaskId, t: Task, seats: set<string>)
    requires Shaped(t)
    ensures CheckTask(tasks, id, t, seats).Some? ==> IsTrueOfTask(tasks, id, t, seats, CheckTask(tasks, id, t, seats).value)
  {
    hide CheckTask, IsTrueOfTask, Occurs, StrayKey, StraySeat, ValidWhen, ValidRepeat, StrayLink, StartDate, Keys;
    ShapedCalendar(t);
    hide Shaped;
    LinksAreTask(tasks, id, t, seats);
    if t.creator !in seats || StraySeat(t.assignees, seats).Some? {
      SeatsAreTrue(tasks, id, t, seats);
    } else if t.when.Some? && t.repeat.Some? {
      StrayIsTrue(t);
      var stray := StrayKey(t.when.value, t.repeat.value, t.skip + Keys(t.moved.Keys));
      if stray.Some? { KeysAreTrue(tasks, id, t, seats, stray.value); }
      SeriesIsTrue(tasks, id, t, seats);
    } else {
      OtherIsTrue(tasks, id, t, seats);
    }
  }

  lemma ShapedCalendar(t: Task)
    requires Shaped(t)
    ensures (t.when.Some? ==> ValidWhen(t.when.value)) && (t.repeat.Some? ==> ValidRepeat(t.repeat.value))
  {
    hide ValidWhen, ValidRepeat, OneLine, WireDate, Unrepeated;
  }

  ghost predicate IsLeastDependent(tasks: Tasks, id: TaskId, d: TaskId) {
    d in tasks && id in tasks[d].blockedBy && forall e <- tasks :: e < d ==> id !in tasks[e].blockedBy
  }

  /** The least dependent of a touched series. */
  ghost predicate IsLinkedSeries(tasks: Tasks, touched: set<TaskId>, d: TaskId) {
    exists id :: id in touched && id in tasks && tasks[id].repeat.Some? && IsLeastDependent(tasks, id, d)
  }

  /** What a changeset refused for its result is told holds of the result. */
  ghost predicate IsTrueOfResult(tasks: Tasks, touched: set<TaskId>, seats: set<string>, f: Fault) {
    && f.task.Some?
    && var x := f.task.value;
       || (x in touched && x in tasks && IsTrueOfTask(tasks, x, tasks[x], seats, f.reason))
       || (f.reason.SeriesLinked? && IsLinkedSeries(tasks, touched, x))
       || (f.reason.CycleFound? && TaskGraph.OnCycle(Links(tasks), x))
  }

  lemma FirstIsLeast(tasks: Tasks, ids: seq<TaskId>, id: TaskId, i: int)
    requires FirstDependent(tasks, ids, id, i) && Ascending(ids) && forall e <- tasks :: e in ids
    ensures IsLeastDependent(tasks, id, ids[i])
  {
    forall e <- tasks | e < ids[i]
      ensures id !in tasks[e].blockedBy
    {
      var j :| 0 <= j < |ids| && ids[j] == e;
    }
  }

  lemma LeastDependent(tasks: Tasks, touched: set<TaskId>, id: TaskId)
    requires id in touched && id in tasks && tasks[id].repeat.Some?
    ensures var d := DependentOf(tasks, Ids(tasks.Keys), id); d.Some? ==> IsLinkedSeries(tasks, touched, d.value)
  {
    hide Ids, DependentOf, FirstDependent, IsLeastDependent;
    var ids := Ids(tasks.Keys);
    var d := DependentOf(tasks, ids, id);
    if d.Some? {
      var i :| FirstDependent(tasks, ids, id, i) && 0 <= i < |ids| && d.value == ids[i];
      FirstIsLeast(tasks, ids, id, i);
    }
  }

  lemma {:induction false} TouchedIsTrue(tasks: Tasks, touched: set<TaskId>, ids: seq<TaskId>, seats: set<string>)
    requires ValidRepeats(tasks) && (forall id <- tasks :: Shaped(tasks[id])) && forall i :: 0 <= i < |ids| ==> ids[i] in touched
    ensures CheckTouched(tasks, ids, seats).Some? ==> IsTrueOfResult(tasks, touched, seats, CheckTouched(tasks, ids, seats).value)
  {
    hide CheckTask, Shaped, IsTrueOfTask, IsLinkedSeries, Ids, DependentOf, ValidRepeat;
    if ids != [] {
      var id := ids[0];
      if id in tasks {
        CheckIsTrue(tasks, id, tasks[id], seats);
        if tasks[id].repeat.Some? { LeastDependent(tasks, touched, id); }
      }
      TouchedIsTrue(tasks, touched, ids[1..], seats);
    }
  }

  lemma ResultIsTrue(tasks: Tasks, touched: set<TaskId>, seats: set<string>)
    requires ValidRepeats(tasks) && forall id <- tasks :: Shaped(tasks[id])
    ensures CheckResult(tasks, Ids(touched), seats).Some? ==>
              IsTrueOfResult(tasks, touched, seats, CheckResult(tasks, Ids(touched), seats).value)
  {
    hide CheckTouched, Shaped, Ids, ValidRepeats, IsTrueOfTask, IsLinkedSeries, TaskGraph.FindCycle, TaskGraph.OnCycle, TaskGraph.Reaches;
    var ids := Ids(touched);
    assert forall i :: 0 <= i < |ids| ==> ids[i] in ids;
    TouchedIsTrue(tasks, touched, ids, seats);
    TaskGraph.FindCycleExact(Links(tasks), ids);
  }

  /** The acts before `i` apply, act `i` does not, and the reason holds of it. */
  ghost predicate FailsAt(tasks: Tasks, acts: seq<Act>, rev: nat, i: int, f: Fault) {
    && 0 <= i < |acts|
    && var before := ApplyActs(tasks, {}, acts[..i], rev);
       before.Ok? && !Applies(before.value.0, acts[i]) && IsTrueOfAct(before.value.0, acts[i], f)
  }

  /** Every refusal is truthful: of the payload's shape, of the first act that does not apply, or of the result. */
  lemma VoidIsTrue(b: BoardState, p: Payload, seats: set<string>, f: Fault)
    requires WellFormed(b, seats) && ValidRepeats(b.tasks) && b.rev <= U64_MAX && FoldOne(b, p, seats).1 == Void(f)
    ensures var rev := FoldOne(b, p, seats).0.rev;
            p.Ops? &&
            if p.acts.None? || p.acts.value == [] || exists i :: 0 <= i < |p.acts.value| && !ActShape(p.acts.value[i])
            then f == Fault(BadShape, None)
            else
              var done := ApplyActs(b.tasks, {}, p.acts.value, rev);
              if done.Err? then exists i :: FailsAt(b.tasks, p.acts.value, rev, i, f)
              else IsTrueOfResult(done.value.0, done.value.1, seats, f)
  {
    hide ActShape, ApplyActs, Applies, IsTrueOfAct, IsTrueOfResult, CheckResult, Shaped, Recorded, Linked, TaskGraph.Acyclic, ValidRepeats, Ids;
    if Parse(p).Ok? {
      var acts, rev := p.acts.value, SaturatingSucc(b.rev);
      ActsApplyIff(b.tasks, {}, acts, rev);
      StartsWorking(b, seats, rev);
      ActsKeepWorking(b.tasks, b.tasks, {}, acts, rev);
      ActsKeepRepeats(b.tasks, {}, acts, rev);
      var done := ApplyActs(b.tasks, {}, acts, rev);
      if done.Err? {
        var i :| 0 <= i < |acts| && var before := ApplyActs(b.tasks, {}, acts[..i], rev);
                                    before.Ok? && !Applies(before.value.0, acts[i]) && IsTrueOfAct(before.value.0, acts[i], f);
        assert FailsAt(b.tasks, acts, rev, i, f);
      } else {
        ResultIsTrue(done.value.0, done.value.1, seats);
      }
    }
  }

  lemma StartsWorking(b: BoardState, seats: set<string>, rev: nat)
    requires WellFormed(b, seats) && b.rev <= rev
    ensures Working(b.tasks, b.tasks, {}, rev)
  {
    hide Shaped, Linked, TaskGraph.Acyclic;
  }
}
