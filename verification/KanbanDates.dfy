/**
 Deadlines derived on read: the dependents-first order of the prerequisite
 graph, the date each open task is needed by, and which tasks are stuck.
 */
module KanbanDates {
  import opened Sorting
  import opened Board
  import TaskGraph

  predicate IsOpen(t: Task) {
    t.state.Todo? || t.state.Wip?
  }

  /** Tasks whose links are duplicate-free, as every folded board has them. */
  ghost predicate CleanLinks(tasks: Tasks) {
    forall id <- tasks :: Unrepeated(tasks[id].blockedBy)
  }

  predicate DependsOn(tasks: Tasks, d: TaskId, b: TaskId) {
    d in tasks && b in tasks && b in tasks[d].blockedBy
  }

  /** The tasks `b` is a prerequisite for, among the first ids. */
  function DependentsAmong(tasks: Tasks, ids: seq<TaskId>, b: TaskId): (r: seq<TaskId>)
    ensures forall d :: d in r <==> d in ids && DependsOn(tasks, d, b)
    ensures |r| <= |ids|
  {
    if ids == [] then []
    else
      var n := |ids| - 1;
      assert ids == ids[..n] + [ids[n]];
      DependentsAmong(tasks, ids[..n], b) + (if DependsOn(tasks, ids[n], b) then [ids[n]] else [])
  }

  /** The tasks `b` is a prerequisite for, ascending. */
  function DependentsOf(tasks: Tasks, b: TaskId): (r: seq<TaskId>)
    ensures forall d :: d in r <==> DependsOn(tasks, d, b)
  {
    DependentsAmong(tasks, Ids(tasks.Keys), b)
  }

  type DependentMap = map<TaskId, seq<TaskId>>

  function Entry(m: DependentMap, b: TaskId): seq<TaskId> {
    if b in m then m[b] else []
  }

  /** Enter `id` under each of its links. */
  method EnterLinks(tasks: Tasks, before: DependentMap, id: TaskId) returns (dependents: DependentMap)
    requires id in tasks && Unrepeated(tasks[id].blockedBy)
    ensures forall b <- tasks ::
              Entry(dependents, b) == Entry(before, b) + (if b in tasks[id].blockedBy then [id] else [])
  {
    hide Entry, Entered;
    dependents := before;
    var links := tasks[id].blockedBy;
    NothingEnteredYet(tasks, before, id);
    assert links[..0] == [];
    for j := 0 to |links|
      invariant Entered(tasks, before, dependents, links[..j], id)
    {
      assert links[..j + 1] == links[..j] + [links[j]];
      assert links[j] !in links[..j];
      EnterOne(tasks, before, dependents, links[..j], links[j], id);
      if links[j] in tasks {
        dependents := dependents[links[j] := Entry(dependents, links[j]) + [id]];
      }
    }
    assert links[..|links|] == links;
    EnteredAll(tasks, before, dependents, links, id);
  }

  /** The links seen so far have `id` at the end of their entries. */
  ghost predicate Entered(tasks: Tasks, before: DependentMap, m: DependentMap, seen: seq<TaskId>, id: TaskId) {
    forall b <- tasks :: Entry(m, b) == Entry(before, b) + (if b in seen then [id] else [])
  }

  lemma NothingEnteredYet(tasks: Tasks, before: DependentMap, id: TaskId)
    ensures Entered(tasks, before, before, [], id)
  {
    hide Entry;
    assert forall b <- tasks :: Entry(before, b) + [] == Entry(before, b);
  }

  lemma EnteredAll(tasks: Tasks, before: DependentMap, m: DependentMap, seen: seq<TaskId>, id: TaskId)
    requires Entered(tasks, before, m, seen, id)
    ensures forall b <- tasks :: Entry(m, b) == Entry(before, b) + (if b in seen then [id] else [])
  {
    hide Entry;
  }

  lemma EnterOne(tasks: Tasks, before: DependentMap, m: DependentMap, seen: seq<TaskId>, l: TaskId, id: TaskId)
    requires Entered(tasks, before, m, seen, id) && l !in seen
    ensures Entered(tasks, before, if l in tasks then m[l := Entry(m, l) + [id]] else m, seen + [l], id)
  {
    var m' := if l in tasks then m[l := Entry(m, l) + [id]] else m;
    assert forall b :: b in seen + [l] <==> b in seen || b == l;
    forall b <- tasks
      ensures Entry(m', b) == Entry(before, b) + (if b in seen + [l] then [id] else [])
    {
      if b == l { assert Entry(m, b) == Entry(before, b) + []; }
    }
  }

  lemma AmongStep(tasks: Tasks, ids: seq<TaskId>, i: nat, b: TaskId)
    requires i < |ids|
    ensures DependentsAmong(tasks, ids[..i + 1], b)
         == DependentsAmong(tasks, ids[..i], b) + (if DependsOn(tasks, ids[i], b) then [ids[i]] else [])
  {
    assert ids[..i + 1][..i] == ids[..i] && ids[..i + 1][i] == ids[i];
  }

  /** The inverse of `blocked_by`, link by link. */
  method CollectDependents(tasks: Tasks) returns (dependents: DependentMap)
    requires CleanLinks(tasks)
    ensures forall b <- tasks :: Entry(dependents, b) == DependentsOf(tasks, b)
  {
    hide Ids, DependentsAmong, Unrepeated, Entry;
    dependents := map[];
    var ids := Ids(tasks.Keys);
    NothingEntered(tasks);
    assert ids[..0] == [];
    for i := 0 to |ids|
      invariant forall b <- tasks :: Entry(dependents, b) == DependentsAmong(tasks, ids[..i], b)
    {
      assert ids[i] in tasks.Keys;
      dependents := EnterLinks(tasks, dependents, ids[i]);
      forall b <- tasks
        ensures Entry(dependents, b) == DependentsAmong(tasks, ids[..i + 1], b)
      {
        AmongStep(tasks, ids, i, b);
      }
    }
    assert ids[..|ids|] == ids;
  }

  lemma NothingEntered(tasks: Tasks)
    ensures forall b <- tasks :: Entry(map[], b) == DependentsAmong(tasks, [], b)
  {
  }

  // --------------------------------------------------- the dependents-first order

  /** The dependents of `b` not yet listed. */
  ghost function Pending(tasks: Tasks, b: TaskId, listed: set<TaskId>): set<TaskId> {
    set d | d in tasks && d !in listed && b in tasks[d].blockedBy
  }

  ghost function Listed(order: seq<TaskId>): set<TaskId> {
    set x | x in order
  }

  /** Every task stands after all its dependents, none twice. */
  ghost predicate DependentsFirst(tasks: Tasks, order: seq<TaskId>) {
    && Unrepeated(order)
    && (forall i :: 0 <= i < |order| ==> order[i] in tasks)
    && (forall i, d :: 0 <= i < |order| && DependsOn(tasks, d, order[i]) ==> d in order[..i])
  }

  /** The loop's bookkeeping; `rest` holds the links of the last listed task still to count down. */
  ghost predicate Counting(tasks: Tasks, waiting: map<TaskId, nat>, ready: set<TaskId>, order: seq<TaskId>, rest: set<TaskId>) {
    && waiting.Keys == tasks.Keys
    && ready <= tasks.Keys
    && (forall x <- tasks :: waiting[x] == |Pending(tasks, x, Listed(order))| + (if x in rest then 1 else 0))
    && (forall x <- tasks :: waiting[x] == 0 <==> x in ready || x in order)
    && (forall x :: x in ready ==> x !in order)
  }

  lemma PendingEmpty(tasks: Tasks, b: TaskId, order: seq<TaskId>)
    requires |Pending(tasks, b, Listed(order))| == 0
    ensures forall d :: DependsOn(tasks, d, b) ==> d in order
  {
    assert Pending(tasks, b, Listed(order)) == {};
    assert forall d :: DependsOn(tasks, d, b) && d !in order ==> d in Pending(tasks, b, Listed(order));
  }

  /** Listing `id` takes it off the pending dependents of exactly its links. */
  lemma ListOne(tasks: Tasks, id: TaskId, order: seq<TaskId>, x: TaskId)
    requires id in tasks && id !in order && x in tasks
    ensures |Pending(tasks, x, Listed(order))| == |Pending(tasks, x, Listed(order + [id]))| + (if x in tasks[id].blockedBy then 1 else 0)
  {
    var a, b := Pending(tasks, x, Listed(order)), Pending(tasks, x, Listed(order + [id]));
    if x in tasks[id].blockedBy {
      assert a == b + {id};
    } else {
      assert a == b;
    }
  }

  ghost function Rest(tasks: Tasks, links: seq<TaskId>): set<TaskId> {
    set b | b in links && b in tasks
  }

  lemma ListedCounts(tasks: Tasks, waiting: map<TaskId, nat>, ready: set<TaskId>, order: seq<TaskId>, id: TaskId)
    requires Counting(tasks, waiting, ready, order, {}) && id in ready
    ensures Counting(tasks, waiting, ready - {id}, order + [id], Rest(tasks, tasks[id].blockedBy))
  {
    hide Pending;
    forall x <- tasks
      ensures waiting[x] == |Pending(tasks, x, Listed(order + [id]))| + (if x in Rest(tasks, tasks[id].blockedBy) then 1 else 0)
    {
      ListOne(tasks, id, order, x);
    }
  }

  lemma ListingKeepsOrder(tasks: Tasks, order: seq<TaskId>, id: TaskId)
    requires DependentsFirst(tasks, order) && id in tasks && id !in order
    requires forall d :: DependsOn(tasks, d, id) ==> d in order
    ensures DependentsFirst(tasks, order + [id])
  {
    var order' := order + [id];
    forall i, d | 0 <= i < |order'| && DependsOn(tasks, d, order'[i])
      ensures d in order'[..i]
    {
      if i < |order| {
        assert order'[..i] == order[..i];
      } else {
        assert order'[..i] == order;
      }
    }
  }

  lemma CountOne(tasks: Tasks, waiting: map<TaskId, nat>, ready: set<TaskId>, order: seq<TaskId>, rest: set<TaskId>, b: TaskId)
    requires b in tasks && b in rest && b !in order && Counting(tasks, waiting, ready, order, rest)
    ensures b in waiting && waiting[b] > 0
    ensures var n: nat := waiting[b] - 1;
            Counting(tasks, waiting[b := n], if n == 0 then ready + {b} else ready, order, rest - {b})
  {
    hide Pending;
  }

  /** Count the links of the task just listed down. */
  method CountDown(tasks: Tasks, waiting0: map<TaskId, nat>, ready0: set<TaskId>, order: seq<TaskId>, links: seq<TaskId>)
    returns (waiting: map<TaskId, nat>, ready: set<TaskId>)
    requires Unrepeated(links) && Counting(tasks, waiting0, ready0, order, Rest(tasks, links))
    ensures Counting(tasks, waiting, ready, order, {})
  {
    hide Counting, Rest, Unrepeated;
    waiting, ready := waiting0, ready0;
    assert links[0..] == links;
    for j := 0 to |links|
      invariant Counting(tasks, waiting, ready, order, Rest(tasks, links[j..]))
    {
      var b := links[j];
      RestStep(tasks, links, j);
      if b in tasks {
        RestNotListed(tasks, waiting, ready, order, Rest(tasks, links[j..]), b);
        CountOne(tasks, waiting, ready, order, Rest(tasks, links[j..]), b);
        var n := if waiting[b] > 0 then waiting[b] - 1 else 0;
        waiting := waiting[b := n];
        if n == 0 { ready := ready + {b}; }
      }
    }
    NothingToCount(tasks, links);
  }

  lemma NothingToCount(tasks: Tasks, links: seq<TaskId>)
    ensures Rest(tasks, links[|links|..]) == {}
  {
  }

  /** A link still to count down is waiting, so it is not listed yet. */
  lemma RestNotListed(tasks: Tasks, waiting: map<TaskId, nat>, ready: set<TaskId>, order: seq<TaskId>, rest: set<TaskId>, b: TaskId)
    requires b in tasks && b in rest && Counting(tasks, waiting, ready, order, rest)
    ensures b !in order
  {
    hide Pending;
  }

  lemma ReadyFacts(tasks: Tasks, waiting: map<TaskId, nat>, ready: set<TaskId>, order: seq<TaskId>, id: TaskId)
    requires Counting(tasks, waiting, ready, order, {}) && id in ready
    ensures id in tasks && id !in order && forall d :: DependsOn(tasks, d, id) ==> d in order
  {
    PendingEmpty(tasks, id, order);
  }

  /** Kahn's loop over the prerequisite graph. */
  method DependentsFirstOrder(tasks: Tasks, dependents: DependentMap) returns (order: seq<TaskId>)
    requires CleanLinks(tasks) && forall b <- tasks :: Entry(dependents, b) == DependentsOf(tasks, b)
    ensures DependentsFirst(tasks, order)
    ensures TaskGraph.Acyclic(Links(tasks)) ==> forall x <- tasks :: x in order
  {
    hide Counting, DependentsFirst, TaskGraph.Acyclic, DependentsOf, Ids, Least, Listed, Unrepeated, Rest;
    var waiting: map<TaskId, nat> := map id | id in tasks :: |Entry(dependents, id)|;
    var ready: set<TaskId> := set id | id in tasks && waiting[id] == 0;
    order := [];
    StartCounts(tasks, dependents, waiting);
    StartOrder(tasks);
    while ready != {}
      invariant Counting(tasks, waiting, ready, order, {}) && DependentsFirst(tasks, order)
      decreases tasks.Keys - Listed(order)
    {
      var id: nat := Least(ready);
      ReadyFacts(tasks, waiting, ready, order, id);
      ListingKeepsOrder(tasks, order, id);
      ListedCounts(tasks, waiting, ready, order, id);
      ListedGrows(order, id);
      order := order + [id];
      waiting, ready := CountDown(tasks, waiting, ready - {id}, order, tasks[id].blockedBy);
    }
    if TaskGraph.Acyclic(Links(tasks)) {
      NothingLeftOut(tasks, waiting, order);
    }
  }

  lemma RestStep(tasks: Tasks, links: seq<TaskId>, j: nat)
    requires j < |links| && Unrepeated(links)
    ensures links[j] !in links[j + 1..]
    ensures links[j] in tasks <==> links[j] in Rest(tasks, links[j..])
    ensures Rest(tasks, links[j + 1..]) == Rest(tasks, links[j..]) - {links[j]}
    ensures links[j] !in tasks ==> Rest(tasks, links[j + 1..]) == Rest(tasks, links[j..])
  {
    assert links[j..] == [links[j]] + links[j + 1..];
  }

  lemma ListedGrows(order: seq<TaskId>, id: TaskId)
    ensures Listed(order + [id]) == Listed(order) + {id}
    ensures id !in order ==> id !in Listed(order)
  {
  }

  lemma StartOrder(tasks: Tasks)
    ensures DependentsFirst(tasks, [])
  {
  }

  lemma SeqOfSet(s: seq<TaskId>, t: set<TaskId>)
    requires Unrepeated(s) && forall x :: x in s <==> x in t
    ensures |s| == |t|
  {
    if s == [] {
      assert t == {};
    } else {
      var n := |s| - 1;
      assert s == s[..n] + [s[n]];
      SeqOfSet(s[..n], t - {s[n]});
    }
  }

  lemma {:induction false} AmongNoRepeats(tasks: Tasks, ids: seq<TaskId>, b: TaskId)
    requires Unrepeated(ids)
    ensures Unrepeated(DependentsAmong(tasks, ids, b))
  {
    if ids != [] {
      var n := |ids| - 1;
      AmongNoRepeats(tasks, ids[..n], b);
      assert ids[n] !in ids[..n];
    }
  }

  lemma {:induction false} AmongAscends(tasks: Tasks, ids: seq<TaskId>, b: TaskId)
    requires Ascending(ids)
    ensures Ascending(DependentsAmong(tasks, ids, b))
  {
    if ids != [] {
      var n := |ids| - 1;
      AmongAscends(tasks, ids[..n], b);
      var front := DependentsAmong(tasks, ids[..n], b);
      forall i | 0 <= i < |front|
        ensures front[i] < ids[n]
      {
        assert front[i] in ids[..n];
      }
    }
  }

  /** The dependents come in the order of their ids. */
  lemma DependentsAscend(tasks: Tasks, b: TaskId)
    ensures Ascending(DependentsOf(tasks, b))
  {
    AmongAscends(tasks, Ids(tasks.Keys), b);
  }

  lemma AllPending(tasks: Tasks, x: TaskId)
    requires x in tasks
    ensures |DependentsOf(tasks, x)| == |Pending(tasks, x, Listed([]))|
  {
    hide Ids, DependentsAmong;
    AmongNoRepeats(tasks, Ids(tasks.Keys), x);
    SeqOfSet(DependentsOf(tasks, x), Pending(tasks, x, Listed([])));
  }

  lemma StartCounts(tasks: Tasks, dependents: DependentMap, waiting: map<TaskId, nat>)
    requires forall b <- tasks :: Entry(dependents, b) == DependentsOf(tasks, b)
    requires waiting == map id | id in tasks :: |Entry(dependents, id)|
    ensures Counting(tasks, waiting, set id | id in tasks && waiting[id] == 0, [], {})
  {
    hide DependentsOf, Pending, Entry, Listed;
    forall x <- tasks
      ensures waiting[x] == |Pending(tasks, x, Listed([]))|
    {
      AllPending(tasks, x);
    }
  }

  /** When nothing is ready, an acyclic graph is fully listed. */
  lemma NothingLeftOut(tasks: Tasks, waiting: map<TaskId, nat>, order: seq<TaskId>)
    requires Counting(tasks, waiting, {}, order, {}) && TaskGraph.Acyclic(Links(tasks))
    ensures forall x <- tasks :: x in order
  {
    var done := TaskGraph.AcyclicHasOrder(Links(tasks), Ids(tasks.Keys));
    forall x <- tasks
      ensures x in order
    {
      assert x in done;
      var k :| 0 <= k < |done| && done[k] == x;
      LaterAreListed(tasks, waiting, order, done, k);
    }
  }

  lemma {:induction false} LaterAreListed(tasks: Tasks, waiting: map<TaskId, nat>, order: seq<TaskId>, done: seq<TaskId>, k: nat)
    requires Counting(tasks, waiting, {}, order, {}) && k < |done|
    requires TaskGraph.FinishOrder(Links(tasks), done) && forall x :: x in done <==> x in tasks
    ensures done[k] in order
    decreases |done| - k
  {
    var x := done[k];
    if d :| d in Pending(tasks, x, Listed(order)) {
      var j :| 0 <= j < |done| && done[j] == d;
      assert TaskGraph.Edge(Links(tasks), done[j], x);
      assert x in done[..j];
      assert k < j;
      LaterAreListed(tasks, waiting, order, done, j);
    } else {
      assert Pending(tasks, x, Listed(order)) == {};
    }
  }
}
