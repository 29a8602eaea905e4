/**
 The engine's fold cache over the two applied logs. Appending extends it,
 anything else refolds; either way it holds what a fresh fold of the current
 logs holds, and the derivation it serves belongs to the board it serves.
 */
module KanbanCache {
  import opened Prelude
  import opened Sorting
  import opened Board
  import opened KanbanFold
  import opened KanbanDates
  import opened Derive
  import KanbanRun
  import TaskGraph

  /** A log entry: the proposal it came from, where known, and its payload. */
  datatype Entry = Entry(id: Option<nat>, payload: Payload)

  /** What the fold of a log leaves in the cache. */
  datatype Snapshot = Snapshot(board: BoardState, revProposal: map<nat, nat>, void: map<nat, Fault>)

  const NOTHING: Snapshot := Snapshot(EMPTY, map[], map[])

  function StepOf(s: Snapshot, e: Entry, seats: set<string>): (r: Snapshot)
    requires ValidRepeats(s.board.tasks)
    ensures ValidRepeats(r.board.tasks)
  {
    var (board, step) := FoldOne(s.board, e.payload, seats);
    if step.Skipped? then s.(board := board)
    else if e.id.None? then s.(board := board)
    else Snapshot(board, s.revProposal[board.rev := e.id.value],
                  if step.Void? then s.void[e.id.value := step.fault] else s.void)
  }

  function FoldLog(s: Snapshot, log: seq<Entry>, seats: set<string>): (r: Snapshot)
    requires ValidRepeats(s.board.tasks)
    ensures ValidRepeats(r.board.tasks)
  {
    if log == [] then s
    else StepOf(FoldLog(s, log[..|log| - 1], seats), log[|log| - 1], seats)
  }

  /** The fresh fold of a log. */
  function Fresh(log: seq<Entry>, seats: set<string>): (r: Snapshot)
    ensures ValidRepeats(r.board.tasks)
  {
    FoldLog(NOTHING, log, seats)
  }

  lemma {:induction false} LogExtends(s: Snapshot, a: seq<Entry>, b: seq<Entry>, seats: set<string>)
    requires ValidRepeats(s.board.tasks)
    ensures FoldLog(s, a + b, seats) == FoldLog(FoldLog(s, a, seats), b, seats)
  {
    hide StepOf, ValidRepeats;
    if b == [] {
      assert a + b == a;
    } else {
      var n := |b| - 1;
      LogExtends(s, a, b[..n], seats);
      var all := a + b;
      assert all[..|all| - 1] == a + b[..n] && all[|all| - 1] == b[n];
    }
  }

  /** A fresh fold, carried on. */
  lemma FreshExtends(done: seq<Entry>, more: seq<Entry>, seats: set<string>)
    ensures Fresh(done + more, seats) == FoldLog(Fresh(done, seats), more, seats)
  {
    hide FoldLog;
    LogExtends(NOTHING, done, more, seats);
  }

  function Payloads(log: seq<Entry>): seq<Payload> {
    seq(|log|, i requires 0 <= i < |log| => log[i].payload)
  }

  /** The cached board is the folded board, and no log outgrows `rev`. */
  lemma {:induction false} FreshBoard(log: seq<Entry>, seats: set<string>)
    ensures Fresh(log, seats).board == Fold(Payloads(log), seats)
    ensures Fresh(log, seats).board.rev <= |log|
  {
    hide ValidRepeats, ApplyChangeset, Parse;
    if log != [] {
      var n := |log| - 1;
      FreshBoard(log[..n], seats);
      var all := Payloads(log);
      assert all[..n] == Payloads(log[..n]) && all[n] == log[n].payload;
    }
  }

  // ----------------------------------------------------------- whose change it was

  /** The changesets of a log: each moves the revision, applied or void. */
  function Changesets(log: seq<Entry>): nat {
    if log == [] then 0
    else Changesets(log[..|log| - 1]) + (if log[|log| - 1].payload.Foreign? then 0 else 1)
  }

  function Saturated(n: nat): nat {
    if n < U64_MAX then n else U64_MAX
  }

  /** Entry `i` is a changeset of a known proposal, and the board stands at `rev` after it. */
  ghost predicate Reaches(log: seq<Entry>, i: int, rev: nat) {
    && 0 <= i < |log| && !log[i].payload.Foreign? && log[i].id.Some?
    && rev == Saturated(Changesets(log[..i + 1]))
  }

  /** Entry `i` is a changeset of proposal `id` that was refused for `f`. */
  ghost predicate Refused(log: seq<Entry>, seats: set<string>, i: int, id: nat, f: Fault) {
    && 0 <= i < |log| && log[i].id == Some(id)
    && FoldOne(Fold(Payloads(log[..i]), seats), log[i].payload, seats).1 == Void(f)
  }

  ghost predicate NoneReaches(log: seq<Entry>, from: int, rev: nat) {
    forall k :: from <= k < |log| ==> !Reaches(log, k, rev)
  }

  ghost predicate NoneRefused(log: seq<Entry>, seats: set<string>, from: int, id: nat) {
    forall k, f :: from <= k < |log| ==> !Refused(log, seats, k, id, f)
  }

  /** The revision counts the changesets. */
  lemma {:induction false} RevIsCount(log: seq<Entry>, seats: set<string>)
    ensures Fresh(log, seats).board.rev == Saturated(Changesets(log))
  {
    hide ValidRepeats, ApplyChangeset, Parse;
    if log != [] { RevIsCount(log[..|log| - 1], seats); }
  }

  lemma ReachesEarlier(log: seq<Entry>, n: nat, i: int, rev: nat)
    requires n <= |log| && 0 <= i < n
    ensures Reaches(log, i, rev) <==> Reaches(log[..n], i, rev)
  {
    assert log[..n][..i + 1] == log[..i + 1];
  }

  lemma RefusedEarlier(log: seq<Entry>, seats: set<string>, n: nat, i: int, id: nat, f: Fault)
    requires n <= |log| && 0 <= i < n
    ensures Refused(log, seats, i, id, f) <==> Refused(log[..n], seats, i, id, f)
  {
    hide Fold, FoldOne;
    assert log[..n][..i] == log[..i];
  }

  /** A revision names the proposal of the last changeset that reached it, and no other revision is named. */
  lemma {:induction false} RevProposalIs(log: seq<Entry>, seats: set<string>, rev: nat)
    ensures var named := Fresh(log, seats).revProposal;
            if rev in named then exists i :: Reaches(log, i, rev) && NoneReaches(log, i + 1, rev) && log[i].id == Some(named[rev])
            else NoneReaches(log, 0, rev)
  {
    hide FoldOne, ValidRepeats, Changesets, Saturated;
    if log != [] {
      var n := |log| - 1;
      var front, e := log[..n], log[n];
      RevProposalIs(front, seats, rev);
      RevIsCount(log, seats);
      forall i | 0 <= i < n
        ensures Reaches(log, i, rev) <==> Reaches(front, i, rev)
      {
        ReachesEarlier(log, n, i, rev);
      }
      StepNames(Fresh(front, seats), e, seats);
      LastReaches(log, rev);
      if !Reaches(log, n, rev) && rev in Fresh(front, seats).revProposal {
        var i :| Reaches(front, i, rev) && NoneReaches(front, i + 1, rev) && front[i].id == Some(Fresh(front, seats).revProposal[rev]);
        assert Reaches(log, i, rev) && NoneReaches(log, i + 1, rev);
      }
    }
  }

  lemma LastReaches(log: seq<Entry>, rev: nat)
    requires log != []
    ensures var e := log[|log| - 1];
            Reaches(log, |log| - 1, rev) <==> !e.payload.Foreign? && e.id.Some? && rev == Saturated(Changesets(log))
  {
    assert log[..|log| - 1 + 1] == log;
  }

  lemma StepNames(s: Snapshot, e: Entry, seats: set<string>)
    requires ValidRepeats(s.board.tasks)
    ensures var s' := StepOf(s, e, seats);
            && s'.revProposal == (if e.payload.Foreign? || e.id.None? then s.revProposal else s.revProposal[s'.board.rev := e.id.value])
            && var step := FoldOne(s.board, e.payload, seats).1;
               s'.void == if e.id.Some? && step.Void? then s.void[e.id.value := step.fault] else s.void
  {
    hide ValidRepeats, ApplyChangeset, Parse;
  }

  /** Below saturation no two changesets share a revision. */
  lemma RevsDiffer(log: seq<Entry>, i: int, j: int, rev: nat)
    requires Reaches(log, i, rev) && Reaches(log, j, rev) && Changesets(log) <= U64_MAX
    ensures i == j
  {
    if i < j { CountGrows(log, i, j); } else if j < i { CountGrows(log, j, i); }
  }

  lemma {:induction false} CountGrows(log: seq<Entry>, i: nat, j: nat)
    requires i < j < |log| && !log[j].payload.Foreign?
    ensures Changesets(log[..i + 1]) < Changesets(log[..j + 1]) <= Changesets(log)
  {
    CountMonotone(log, i + 1, j);
    CountMonotone(log, j + 1, |log|);
    assert log[..j + 1][..j] == log[..j] && log[..|log|] == log;
  }

  lemma {:induction false} CountMonotone(log: seq<Entry>, i: nat, j: nat)
    requires i <= j <= |log|
    ensures Changesets(log[..i]) <= Changesets(log[..j])
    decreases j
  {
    if i < j {
      CountMonotone(log, i, j - 1);
      assert log[..j][..j - 1] == log[..j - 1];
    }
  }

  /** A proposal is void exactly if some changeset of it was refused, for the reason of the last refusal. */
  lemma {:induction false} VoidIs(log: seq<Entry>, seats: set<string>, id: nat)
    ensures var void := Fresh(log, seats).void;
            if id in void then exists i :: Refused(log, seats, i, id, void[id]) && NoneRefused(log, seats, i + 1, id)
            else NoneRefused(log, seats, 0, id)
  {
    hide FoldOne, ValidRepeats, Refused, Fold;
    if log != [] {
      var n := |log| - 1;
      var front, e := log[..n], log[n];
      VoidIs(front, seats, id);
      forall i, f | 0 <= i < n
        ensures Refused(log, seats, i, id, f) <==> Refused(front, seats, i, id, f)
      {
        RefusedEarlier(log, seats, n, i, id, f);
      }
      StepNames(Fresh(front, seats), e, seats);
      LastRefused(log, seats, id);
      var was, now := Fresh(front, seats).void, Fresh(log, seats).void;
      var step := FoldOne(Fresh(front, seats).board, e.payload, seats).1;
      if e.id == Some(id) && step.Void? {
        assert Refused(log, seats, n, id, now[id]) && NoneRefused(log, seats, n + 1, id);
      } else if id in was {
        var i :| Refused(front, seats, i, id, was[id]) && NoneRefused(front, seats, i + 1, id);
        RefusedInside(front, seats, i, id, was[id]);
        assert Refused(log, seats, i, id, now[id]) && NoneRefused(log, seats, i + 1, id);
      }
    }
  }

  lemma RefusedInside(log: seq<Entry>, seats: set<string>, i: int, id: nat, f: Fault)
    requires Refused(log, seats, i, id, f)
    ensures 0 <= i < |log|
  {
  }

  lemma LastRefused(log: seq<Entry>, seats: set<string>, id: nat)
    requires log != []
    ensures var n := |log| - 1; var step := FoldOne(Fresh(log[..n], seats).board, log[n].payload, seats).1;
            && forall f :: Refused(log, seats, n, id, f) <==> log[n].id == Some(id) && step == Void(f)
  {
    hide FoldOne, FoldLog, Fold;
    FreshBoard(log[..|log| - 1], seats);
  }

  /** A step either leaves the board or moves its revision. */
  lemma StepMovesRev(s: Snapshot, e: Entry, seats: set<string>)
    requires ValidRepeats(s.board.tasks) && s.board.rev < U64_MAX
    ensures var s' := StepOf(s, e, seats);
            s'.board == s.board || s'.board.rev == s.board.rev + 1
  {
    hide ValidRepeats, ApplyChangeset, Parse;
  }

  /** A fold is well formed, so its derivation exists. */
  lemma FreshIsDerivable(log: seq<Entry>, seats: set<string>)
    ensures var tasks := Fresh(log, seats).board.tasks;
            && CleanLinks(tasks) && TaskGraph.Acyclic(Links(tasks))
            && forall id <- tasks :: Unrepeated(tasks[id].assignees)
  {
    hide Fold, Recorded, Linked, TaskGraph.Acyclic, OneLine;
    FreshBoard(log, seats);
    FoldIsWellFormed(Payloads(log), seats);
  }

  /** Extending the grown half while the other stood still is refolding both. */
  lemma ExtensionIsRefold(legacy: seq<Entry>, chain: seq<Entry>, l: nat, c: nat, seats: set<string>)
    requires l <= |legacy| && c <= |chain|
    requires (c == 0 && |chain| == 0) || l == |legacy|
    ensures FoldLog(Fresh(legacy[..l] + chain[..c], seats), legacy[l..] + chain[c..], seats) == Fresh(legacy + chain, seats)
  {
    hide FoldLog;
    FreshExtends(legacy[..l] + chain[..c], legacy[l..] + chain[c..], seats);
    assert legacy[..l] + chain[..c] + (legacy[l..] + chain[c..]) == legacy + chain;
  }

  class Cache {
    var board: BoardState
    var legacy: nat
    var chain: nat
    var epoch: nat
    var seats: set<string>
    var revProposal: map<nat, nat>
    var void: map<nat, Fault>
    var derived: Option<(nat, int, Derived)>

    function Snap(): Snapshot
      reads this
    {
      Snapshot(board, revProposal, void)
    }

    /** A kept derivation of the current revision is the current board's. */
    ghost predicate DerivedOk()
      reads this
    {
      derived.Some? ==>
        derived.value.0 <= board.rev &&
        (derived.value.0 == board.rev ==> IsDerived(board.tasks, derived.value.1, derived.value.2))
    }

    ghost predicate Valid()
      reads this
    {
      ValidRepeats(board.tasks) && DerivedOk()
    }

    constructor (legacy: nat, chain: nat, epoch: nat, seats: set<string>)
      ensures Valid() && Snap() == NOTHING && derived.None?
      ensures this.legacy == legacy && this.chain == chain && this.epoch == epoch && this.seats == seats
    {
      board := EMPTY;
      this.legacy, this.chain, this.epoch, this.seats := legacy, chain, epoch, seats;
      revProposal, void, derived := map[], map[], None;
    }

    /** The fold step, for the full fold and the extension alike; below saturation a kept derivation stays honest. */
    method Step(e: Entry)
      requires ValidRepeats(board.tasks)
      modifies this
      ensures ValidRepeats(board.tasks) && Snap() == StepOf(old(Snap()), e, seats)
      ensures old(Valid()) && old(board.rev) < U64_MAX ==> Valid()
      ensures legacy == old(legacy) && chain == old(chain) && epoch == old(epoch) && seats == old(seats)
      ensures derived == old(derived)
    {
      hide IsDerived, KanbanFold.FoldOne, ValidRepeats;
      if board.rev < U64_MAX { StepMovesRev(Snap(), e, seats); }
      var live := new KanbanRun.LiveBoard();
      live.rev, live.tasks := board.rev, board.tasks;
      var step := live.FoldOne(e.payload, seats);
      board := live.Value();
      if step.Skipped? { return; }
      if e.id.Some? {
        revProposal := revProposal[board.rev := e.id.value];
        if step.Void? { void := void[e.id.value := step.fault]; }
      }
    }

    /** Step through a tail of the logs. */
    method Steps(ghost done: seq<Entry>, tail: seq<Entry>)
      requires Valid() && |done| + |tail| < U64_MAX && Snap() == Fresh(done, seats)
      modifies this
      ensures Valid() && Snap() == FoldLog(old(Snap()), tail, seats)
      ensures legacy == old(legacy) && chain == old(chain) && epoch == old(epoch) && seats == old(seats)
      ensures derived == old(derived)
    {
      hide IsDerived, ValidRepeats, StepOf;
      for i := 0 to |tail|
        invariant Valid() && Snap() == FoldLog(old(Snap()), tail[..i], seats)
        invariant legacy == old(legacy) && chain == old(chain) && epoch == old(epoch) && seats == old(seats)
        invariant derived == old(derived)
      {
        FreshExtends(done, tail[..i], seats);
        FreshBoard(done + tail[..i], seats);
        assert tail[..i + 1][..i] == tail[..i] && tail[..i + 1][i] == tail[i];
        Step(tail[i]);
      }
      assert tail[..|tail|] == tail;
    }

    /** The kept derivation, while it is of this board and day. */
    function DerivedFor(today: int): (d: Option<Derived>)
      requires Valid()
      reads this
      ensures d.Some? ==> IsDerived(board.tasks, today, d.value)
    {
      if derived.Some? && derived.value.0 == board.rev && derived.value.1 == today then Some(derived.value.2) else None
    }
  }

  class State {
    var applied: seq<Entry>
    var chainApplied: seq<Entry>
    var epoch: nat
    var roster: set<string>
    var cache: Cache?

    /** The logs fit in memory, so their revisions never saturate. */
    ghost predicate Fits()
      reads this
    {
      |applied| + |chainApplied| < U64_MAX
    }

    /** In an unchanged epoch the cache is the fold of a prefix of each log. */
    ghost predicate Coherent()
      reads this, cache
    {
      && Fits()
      && (cache != null ==>
            && cache.Valid() && cache.epoch <= epoch
            && (cache.epoch == epoch ==>
                  && cache.legacy <= |applied| && cache.chain <= |chainApplied|
                  && cache.Snap() == Fresh(applied[..cache.legacy] + chainApplied[..cache.chain], cache.seats)))
    }

    ghost predicate Current()
      reads this, cache
    {
      && cache != null && cache.epoch == epoch && cache.seats == roster
      && cache.legacy == |applied| && cache.chain == |chainApplied|
      && cache.Snap() == Fresh(applied + chainApplied, roster)
    }

    constructor ()
      ensures Coherent() && applied == [] && chainApplied == [] && cache == null
    {
      applied, chainApplied, epoch, roster, cache := [], [], 0, {}, null;
    }

    method AppendLegacy(e: Entry)
      requires Coherent() && |applied| + |chainApplied| + 1 < U64_MAX
      modifies this
      ensures Coherent() && applied == old(applied) + [e]
      ensures chainApplied == old(chainApplied) && epoch == old(epoch) && roster == old(roster) && cache == old(cache)
    {
      hide FoldLog, IsDerived, ValidRepeats;
      if cache != null && cache.epoch == epoch {
        assert (applied + [e])[..cache.legacy] == applied[..cache.legacy];
      }
      applied := applied + [e];
    }

    method AppendChain(e: Entry)
      requires Coherent() && |applied| + |chainApplied| + 1 < U64_MAX
      modifies this
      ensures Coherent() && chainApplied == old(chainApplied) + [e]
      ensures applied == old(applied) && epoch == old(epoch) && roster == old(roster) && cache == old(cache)
    {
      hide FoldLog, IsDerived, ValidRepeats;
      if cache != null && cache.epoch == epoch {
        assert (chainApplied + [e])[..cache.chain] == chainApplied[..cache.chain];
      }
      chainApplied := chainApplied + [e];
    }

    /** Anything but growth moves the epoch. */
    method Rewrite(legacy: seq<Entry>, chain: seq<Entry>)
      requires Coherent() && |legacy| + |chain| < U64_MAX
      modifies this
      ensures Coherent() && applied == legacy && chainApplied == chain && epoch == old(epoch) + 1
      ensures roster == old(roster) && cache == old(cache)
    {
      applied, chainApplied, epoch := legacy, chain, epoch + 1;
    }

    method SetRoster(seats: set<string>)
      requires Coherent()
      modifies this
      ensures Coherent() && roster == seats
      ensures applied == old(applied) && chainApplied == old(chainApplied) && epoch == old(epoch) && cache == old(cache)
    {
      roster := seats;
    }

    /** A fresh fold of both logs. */
    method FoldKanban() returns (c: Cache)
      requires Fits()
      ensures fresh(c) && c.Valid() && c.Snap() == Fresh(applied + chainApplied, roster)
      ensures c.legacy == |applied| && c.chain == |chainApplied| && c.epoch == epoch && c.seats == roster
      ensures c.derived.None?
    {
      c := new Cache(|applied|, |chainApplied|, epoch, roster);
      c.Steps([], applied + chainApplied);
    }

    /** Extend by the appended entries while the other half stood still, else refold. */
    method RefreshFold()
      requires Coherent()
      modifies this, cache
      ensures Coherent() && Current()
      ensures applied == old(applied) && chainApplied == old(chainApplied) && epoch == old(epoch) && roster == old(roster)
      ensures cache == old(cache) || fresh(cache)
    {
      hide FoldLog, IsDerived, ValidRepeats;
      var legacy, chain := |applied|, |chainApplied|;
      if cache != null && cache.epoch == epoch && cache.seats == roster
         && ((cache.chain == 0 && chain == 0 && cache.legacy <= legacy)
             || (cache.legacy == legacy && cache.chain <= chain)) {
        var c := cache;
        ghost var done := applied[..c.legacy] + chainApplied[..c.chain];
        var tail := applied[c.legacy..] + chainApplied[c.chain..];
        ExtensionIsRefold(applied, chainApplied, c.legacy, c.chain, roster);
        assert |done| + |tail| == |applied| + |chainApplied|;
        c.Steps(done, tail);
        c.legacy, c.chain := legacy, chain;
      } else {
        cache := FoldKanban();
      }
      assert applied[..|applied|] == applied && chainApplied[..|chainApplied|] == chainApplied;
    }

    /** Refresh, then derive for today unless that is kept already. */
    method RefreshCache(today: int)
      requires Coherent()
      modifies this, cache
      ensures Coherent() && Current()
      ensures cache.DerivedFor(today).Some?
      ensures applied == old(applied) && chainApplied == old(chainApplied) && epoch == old(epoch) && roster == old(roster)
    {
      hide FoldLog, IsDerived, ValidRepeats;
      RefreshFold();
      var c := cache;
      if c.DerivedFor(today).None? {
        FreshIsDerivable(applied + chainApplied, roster);
        var d := DeriveBoard(c.board.tasks, today);
        c.derived := Some((c.board.rev, today, d));
      }
    }

    /** The cache while it describes the current logs, else a fresh fold. */
    method KanbanBoard() returns (c: Cache)
      requires Coherent()
      ensures c.Valid() && c.Snap() == Fresh(applied + chainApplied, roster) && c.seats == roster
      ensures c == cache || fresh(c)
    {
      hide FoldLog, IsDerived, ValidRepeats;
      if cache != null && cache.epoch == epoch && cache.legacy == |applied| && cache.chain == |chainApplied| && cache.seats == roster {
        assert applied[..|applied|] == applied && chainApplied[..|chainApplied|] == chainApplied;
        return cache;
      }
      c := FoldKanban();
    }
  }
}
