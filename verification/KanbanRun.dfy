/** The changeset application as the loops run it, over a working copy. */
module KanbanRun {
  import opened Prelude
  import opened Board
  import opened KanbanFold
  import opened KanbanEffect
  import TaskGraph

  method RunActs(tasks0: Tasks, acts: seq<Act>, rev: nat) returns (r: Result<(Tasks, set<TaskId>), Fault>)
    ensures r == ApplyActs(tasks0, {}, acts, rev)
  {
    hide ApplyAct;
    var tasks := tasks0;
    var touched: set<TaskId> := {};
    for i := 0 to |acts|
      invariant ApplyActs(tasks, touched, acts[i..], rev) == ApplyActs(tasks0, {}, acts, rev)
    {
      assert acts[i..][1..] == acts[i + 1..];
      match ApplyAct(tasks, acts[i], rev)
      case Err(f) => return Err(f);
      case Ok((tasks', id)) =>
        tasks := tasks';
        touched := touched + {id};
    }
    return Ok((tasks, touched));
  }

  method RunCheck(tasks: Tasks, touched: seq<TaskId>, seats: set<string>) returns (f: Option<Fault>)
    requires ValidRepeats(tasks)
    ensures f == CheckResult(tasks, touched, seats)
  {
    hide CheckTask, ValidRepeats, Ids, TaskGraph.FindCycle, DependentOf;
    for i := 0 to |touched|
      invariant CheckTouched(tasks, touched[i..], seats) == CheckTouched(tasks, touched, seats)
    {
      assert touched[i..][1..] == touched[i + 1..];
      var id := touched[i];
      if id !in tasks { continue; }
      RepeatsOf(tasks, id);
      var r := CheckTask(tasks, id, tasks[id], seats);
      if r.Some? { return Some(Fault(r.value, Some(id))); }
      if IsSeries(tasks[id]) {
        IdsAreTasks(tasks);
        var d := DependentOf(tasks, Ids(tasks.Keys), id);
        if d.Some? { return Some(Fault(SeriesLinked, d)); }
      }
    }
    var c := TaskGraph.RunFindCycle(Links(tasks), touched);
    if c.Some? { return Some(Fault(CycleFound, c)); }
    return None;
  }

  lemma RepeatsOf(tasks: Tasks, id: TaskId)
    requires ValidRepeats(tasks) && id in tasks
    ensures tasks[id].repeat.Some? ==> Series.ValidRepeat(tasks[id].repeat.value)
  {
  }

  lemma IdsAreTasks(tasks: Tasks)
    ensures forall i :: 0 <= i < |Ids(tasks.Keys)| ==> Ids(tasks.Keys)[i] in tasks
  {
    assert forall i :: 0 <= i < |Ids(tasks.Keys)| ==> Ids(tasks.Keys)[i] in Ids(tasks.Keys);
  }

  method RunChangeset(b: BoardState, acts: seq<Act>, rev: nat, seats: set<string>) returns (r: Result<Tasks, Fault>)
    requires ValidRepeats(b.tasks) && forall i :: 0 <= i < |acts| ==> ActShape(acts[i])
    ensures r == ApplyChangeset(b, acts, rev, seats)
    ensures r.Ok? ==> forall id :: Decided(TaskAt(b.tasks, id), acts, id, TaskAt(r.value, id), rev)
  {
    hide ApplyActs, CheckResult, ActShape, ValidRepeats, Decided;
    var done := RunActs(b.tasks, acts, rev);
    if done.Err? { return Err(done.error); }
    ActsKeepRepeats(b.tasks, {}, acts, rev);
    var f := RunCheck(done.value.0, Ids(done.value.1), seats);
    if f.Some? { return Err(f.value); }
    forall id
      ensures Decided(TaskAt(b.tasks, id), acts, id, TaskAt(done.value.0, id), rev)
    {
      ChangesetDecides(b, acts, rev, seats, id);
    }
    return Ok(done.value.0);
  }

  /** The board a live node mutates in place. */
  class LiveBoard {
    var rev: nat
    var tasks: Tasks

    ghost predicate Valid()
      reads this
    {
      ValidRepeats(tasks)
    }

    function Value(): BoardState
      reads this
    {
      BoardState(rev, tasks)
    }

    constructor ()
      ensures Valid() && Value() == EMPTY
    {
      rev := 0;
      tasks := map[];
    }

    /** A changeset applies whole or moves only `rev`; anything else changes nothing. */
    method FoldOne(p: Payload, seats: set<string>) returns (step: FoldStep)
      requires Valid()
      modifies this
      ensures Valid() && (Value(), step) == KanbanFold.FoldOne(old(Value()), p, seats)
      ensures !step.Applied? ==> tasks == old(tasks)
      ensures step.Applied? ==>
                p.Ops? && p.acts.Some? && forall id :: Decided(TaskAt(old(tasks), id), p.acts.value, id, TaskAt(tasks, id), rev)
    {
      hide Decided, ApplyChangeset, ActShape, ValidRepeats;
      FoldOneIs(Value(), p, seats);
      if p.Foreign? { return Skipped; }
      var next := SaturatingSucc(rev);
      var parsed := Parse(p);
      var result: Result<Tasks, Fault>;
      if parsed.Err? {
        result := Err(parsed.error);
      } else {
        result := RunChangeset(Value(), parsed.value, next, seats);
      }
      rev := next;
      if result.Err? { return Void(result.error); }
      tasks := result.value;
      return Applied;
    }

    method FoldOnto(applied: seq<Payload>, seats: set<string>)
      requires Valid()
      modifies this
      ensures Valid() && Value() == KanbanFold.FoldOnto(old(Value()), applied, seats)
    {
      hide KanbanFold.FoldOne, ValidRepeats;
      assert applied[..0] == [];
      for i := 0 to |applied|
        invariant Valid() && Value() == KanbanFold.FoldOnto(old(Value()), applied[..i], seats)
      {
        assert applied[..i + 1][..i] == applied[..i] && applied[..i + 1][i] == applied[i];
        var _ := FoldOne(applied[i], seats);
      }
      assert applied[..|applied|] == applied;
    }
  }

  /** The check at the propose door answers exactly whether folding now would apply. */
  method Precheck(b: BoardState, p: Payload, seats: set<string>) returns (fault: Option<Fault>)
    requires ValidRepeats(b.tasks)
    ensures fault.None? <==> FoldOne(b, p, seats).1.Applied?
    ensures fault.Some? && p.Ops? ==> FoldOne(b, p, seats) == (BoardState(SaturatingSucc(b.rev), b.tasks), Void(fault.value))
  {
    hide ApplyChangeset, ValidRepeats;
    var parsed := Parse(p);
    if parsed.Err? { return Some(parsed.error); }
    var r := RunChangeset(b, parsed.value, SaturatingSucc(b.rev), seats);
    return if r.Err? then Some(r.error) else None;
  }
}
