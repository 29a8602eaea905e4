/**
 The parking buffer for references that arrive before the message they point at.
 Every run of it agrees with an ideal record that keeps, per waiting target, when
 it came and everything parked for it since: the buffer holds the last refs of
 each, in arrival order, and gives up the target that has waited longest.
 */
module Parking {
  import opened Prelude
  import opened Sorting

  type MessageId = int
  type MemberId = nat

  datatype ReactOp = Add | Remove

  datatype PendingRef =
    | React(member: MemberId, emoji: string, op: Option<ReactOp>)
    | Delete(member: MemberId)
    | FileRemove(member: MemberId)
    | Read(member: MemberId)

  const TARGET_CAP: nat := 256
  const REFS_PER_TARGET: nat := 64

  datatype Buffer = Buffer(refs: map<MessageId, seq<PendingRef>>, order: seq<MessageId>)

  const EMPTY: Buffer := Buffer(map[], [])

  function Retained(order: seq<MessageId>, x: MessageId): seq<MessageId> {
    if order == [] then []
    else (if order[0] == x then [] else [order[0]]) + Retained(order[1..], x)
  }

  function Appended(list: seq<PendingRef>, r: PendingRef): seq<PendingRef> {
    (if |list| >= REFS_PER_TARGET then list[1..] else list) + [r]
  }

  function AfterPark(b: Buffer, x: MessageId, r: PendingRef): Buffer {
    if x in b.refs then Buffer(b.refs[x := Appended(b.refs[x], r)], b.order)
    else if |b.order| >= TARGET_CAP then
      Buffer((b.refs - {b.order[0]})[x := [r]], b.order[1..] + [x])
    else Buffer(b.refs[x := [r]], b.order + [x])
  }

  function Parked(b: Buffer, x: MessageId): seq<PendingRef> {
    if x in b.refs then b.refs[x] else []
  }

  function AfterDrain(b: Buffer, x: MessageId): Buffer {
    Buffer(b.refs - {x}, if Parked(b, x) == [] then b.order else Retained(b.order, x))
  }

  /** The source's object. */
  class ParkedRefs {
    var refs: map<MessageId, seq<PendingRef>>
    var order: seq<MessageId>

    function Value(): Buffer
      reads this
    {
      Buffer(refs, order)
    }

    constructor ()
      ensures Value() == EMPTY
    {
      refs, order := map[], [];
    }

    method Park(target: MessageId, r: PendingRef)
      modifies this
      ensures Value() == AfterPark(old(Value()), target, r)
    {
      if target in refs {
        var list := refs[target];
        if |list| >= REFS_PER_TARGET {
          list := list[1..];
        }
        refs := refs[target := list + [r]];
        return;
      }
      if |order| >= TARGET_CAP {
        var oldest := order[0];
        order := order[1..];
        refs := refs - {oldest};
      }
      refs := refs[target := [r]];
      order := order + [target];
    }

    method Drain(target: MessageId) returns (parked: seq<PendingRef>)
      modifies this
      ensures parked == Parked(old(Value()), target)
      ensures Value() == AfterDrain(old(Value()), target)
    {
      parked := if target in refs then refs[target] else [];
      refs := refs - {target};
      if parked != [] {
        order := Retained(order, target);
      }
    }

    method Clear()
      modifies this
      ensures Value() == EMPTY
    {
      refs, order := map[], [];
    }
  }

  // -------------------------------------------------------------- the ideal record

  /** Since when a target waits, and everything parked for it since. */
  datatype Wait = Wait(since: nat, all: seq<PendingRef>)

  type Record = map<MessageId, Wait>

  ghost predicate LongestWaiting(a: Record, y: MessageId) {
    y in a && forall z <- a :: a[y].since <= a[z].since
  }

  /** Different targets came at different times. */
  ghost predicate Spread(a: Record, now: nat) {
    && (forall y <- a :: a[y].since < now && a[y].all != [])
    && (forall y <- a, z <- a :: a[y].since == a[z].since ==> y == z)
  }

  lemma {:induction false} SomeoneWaitsLongest(a: Record)
    requires a != map[]
    ensures exists y :: LongestWaiting(a, y)
    decreases |a|
  {
    var x := SomeElement(a.Keys);
    var rest := a - {x};
    assert forall z <- a :: z == x || (z in rest && rest[z] == a[z]);
    if rest == map[] {
      assert LongestWaiting(a, x);
    } else {
      assert |a.Keys - {x}| < |a.Keys| && rest.Keys == a.Keys - {x};
      SomeoneWaitsLongest(rest);
      var y :| LongestWaiting(rest, y);
      assert LongestWaiting(a, if a[x].since <= a[y].since then x else y);
    }
  }

  /** The record after a ref is parked at time `now`: no cap on the refs, and a full record gives up its longest waiting target. */
  ghost function Noted(a: Record, now: nat, x: MessageId, r: PendingRef): Record {
    if x in a then a[x := Wait(a[x].since, a[x].all + [r])]
    else if |a| >= TARGET_CAP then
      assert a != map[];
      SomeoneWaitsLongest(a);
      var y :| LongestWaiting(a, y);
      (a - {y})[x := Wait(now, [r])]
    else a[x := Wait(now, [r])]
  }

  datatype Event = Parks(target: MessageId, ref: PendingRef) | Drains(target: MessageId) | Clears

  function Step(b: Buffer, e: Event): Buffer {
    match e
    case Parks(x, r) => AfterPark(b, x, r)
    case Drains(x) => AfterDrain(b, x)
    case Clears => EMPTY
  }

  function Run(es: seq<Event>): Buffer {
    if es == [] then EMPTY else Step(Run(es[..|es| - 1]), es[|es| - 1])
  }

  ghost function Recorded(es: seq<Event>): Record {
    if es == [] then map[]
    else
      var n := |es| - 1;
      var a := Recorded(es[..n]);
      match es[n]
      case Parks(x, r) => Noted(a, n, x, r)
      case Drains(x) => a - {x}
      case Clears => map[]
  }

  // ----------------------------------------------------------------- agreement

  function LastRefs(s: seq<PendingRef>): seq<PendingRef> {
    if |s| <= REFS_PER_TARGET then s else s[|s| - REFS_PER_TARGET..]
  }

  predicate CameBefore(a: Record, x: MessageId, y: MessageId) {
    x in a && y in a && a[x].since < a[y].since
  }

  ghost predicate ByArrival(a: Record, order: seq<MessageId>) {
    forall i, j :: 0 <= i < j < |order| ==> CameBefore(a, order[i], order[j])
  }

  /** The targets of the record, in the order they came. */
  ghost predicate InOrder(a: Record, order: seq<MessageId>) {
    (forall x :: x in order <==> x in a) && ByArrival(a, order)
  }

  ghost predicate Agrees(b: Buffer, a: Record, now: nat) {
    && Spread(a, now) && InOrder(a, b.order) && |b.order| <= TARGET_CAP
    && b.refs.Keys == a.Keys
    && forall x <- a :: b.refs[x] == LastRefs(a[x].all)
  }

  lemma {:induction false} RetainedMembers(order: seq<MessageId>, x: MessageId)
    ensures forall y :: y in Retained(order, x) <==> y in order && y != x
    ensures |Retained(order, x)| <= |order|
  {
    if order != [] { RetainedMembers(order[1..], x); }
  }

  lemma {:induction false} RetainedInOrder(a: Record, order: seq<MessageId>, x: MessageId)
    requires ByArrival(a, order)
    ensures ByArrival(a, Retained(order, x))
  {
    hide CameBefore;
    if order != [] {
      var rest := order[1..];
      assert ByArrival(a, rest);
      RetainedInOrder(a, rest, x);
      RetainedMembers(rest, x);
      var s := Retained(rest, x);
      forall j | 0 <= j < |s|
        ensures CameBefore(a, order[0], s[j])
      {
        assert s[j] in s && s[j] in rest;
        var k :| 0 <= k < |rest| && rest[k] == s[j];
        assert order[k + 1] == s[j];
      }
    }
  }

  /** Ordered targets count the record. */
  lemma {:induction false} OrderCounts(a: Record, order: seq<MessageId>)
    requires InOrder(a, order)
    ensures |order| == |a|
    decreases |order|
  {
    if order == [] {
      assert forall x :: x !in a;
      assert a == map[];
    } else {
      var x := order[0];
      DropHead(a, order);
      assert x in order;
      OrderCounts(a - {x}, order[1..]);
      assert (a - {x}).Keys == a.Keys - {x};
      assert |a.Keys - {x}| == |a.Keys| - 1;
    }
  }

  /** The head of the ledger has waited longest, and it alone. */
  lemma HeadWaitsLongest(a: Record, now: nat, order: seq<MessageId>, y: MessageId)
    requires Spread(a, now) && InOrder(a, order) && order != []
    ensures LongestWaiting(a, y) <==> y == order[0]
  {
    forall z | z in a
      ensures a[order[0]].since <= a[z].since
    {
      assert z in order;
      var i :| 0 <= i < |order| && order[i] == z;
    }
    assert order[0] in order;
  }

  lemma AppendedIsLast(all: seq<PendingRef>, r: PendingRef)
    ensures Appended(LastRefs(all), r) == LastRefs(all + [r])
  {
  }

  lemma NotedGivesUp(a: Record, now: nat, x: MessageId, r: PendingRef) returns (y: MessageId)
    requires x !in a && |a| >= TARGET_CAP
    ensures LongestWaiting(a, y) && Noted(a, now, x, r) == (a - {y})[x := Wait(now, [r])]
  {
    assert a != map[];
    SomeoneWaitsLongest(a);
    y :| LongestWaiting(a, y) && Noted(a, now, x, r) == (a - {y})[x := Wait(now, [r])];
  }

  /** No target comes after itself. */
  lemma HeadIsOnce(a: Record, order: seq<MessageId>)
    requires ByArrival(a, order) && order != []
    ensures order[0] !in order[1..] && ByArrival(a - {order[0]}, order[1..])
  {
    var x, rest := order[0], order[1..];
    forall i | 0 <= i < |rest|
      ensures CameBefore(a, x, rest[i])
    {
      assert CameBefore(a, order[0], order[i + 1]);
    }
    forall i, j | 0 <= i < j < |rest|
      ensures CameBefore(a - {x}, rest[i], rest[j])
    {
      assert CameBefore(a, order[i + 1], order[j + 1]);
    }
  }

  lemma DropHead(a: Record, order: seq<MessageId>)
    requires InOrder(a, order) && order != []
    ensures InOrder(a - {order[0]}, order[1..])
  {
    HeadIsOnce(a, order);
    hide ByArrival, CameBefore;
    var x, rest := order[0], order[1..];
    assert order == [x] + rest;
    forall y
      ensures y in rest <==> y in a - {x}
    {
      assert y in order <==> y == x || y in rest;
    }
  }

  lemma ComesLast(a: Record, order: seq<MessageId>, x: MessageId, w: Wait)
    requires InOrder(a, order) && x !in a && forall y <- a :: a[y].since < w.since
    ensures InOrder(a[x := w], order + [x])
  {
    var s, a' := order + [x], a[x := w];
    forall i, j | 0 <= i < j < |s|
      ensures CameBefore(a', s[i], s[j])
    {
      assert s[i] == order[i] && order[i] in order;
      if j < |order| { assert CameBefore(a, order[i], order[j]); }
    }
    forall y
      ensures y in s <==> y in a'
    {
      assert y in s <==> y in order || y == x;
    }
  }

  /** One more ref for a target that waits. */
  lemma ParkAgain(b: Buffer, a: Record, now: nat, x: MessageId, r: PendingRef)
    requires Agrees(b, a, now) && x in a
    ensures Agrees(AfterPark(b, x, r), Noted(a, now, x, r), now + 1)
  {
    hide Appended, LastRefs;
    AppendedIsLast(a[x].all, r);
    var a' := Noted(a, now, x, r);
    assert a'.Keys == a.Keys;
    assert forall y <- a :: a'[y].since == a[y].since;
  }

  /** A target that was absent comes last, with one ref. */
  lemma ParkNew(refs: map<MessageId, seq<PendingRef>>, order: seq<MessageId>, a: Record, now: nat, x: MessageId, r: PendingRef)
    requires Agrees(Buffer(refs, order), a, now) && x !in a && |order| < TARGET_CAP
    ensures Agrees(Buffer(refs[x := [r]], order + [x]), a[x := Wait(now, [r])], now + 1)
  {
    hide LastRefs, InOrder;
    FirstIsLast(r);
    ComesLast(a, order, x, Wait(now, [r]));
  }

  /** The longest waiting target goes. */
  lemma GiveUp(b: Buffer, a: Record, now: nat)
    requires Agrees(b, a, now) && b.order != []
    ensures Agrees(Buffer(b.refs - {b.order[0]}, b.order[1..]), a - {b.order[0]}, now)
  {
    hide LastRefs, InOrder;
    DropHead(a, b.order);
  }

  lemma ParkAgrees(b: Buffer, a: Record, now: nat, x: MessageId, r: PendingRef)
    requires Agrees(b, a, now)
    ensures Agrees(AfterPark(b, x, r), Noted(a, now, x, r), now + 1)
  {
    hide Appended, LastRefs, InOrder, Spread;
    OrderCounts(a, b.order);
    if x in a {
      ParkAgain(b, a, now, x, r);
    } else if |b.order| >= TARGET_CAP {
      var y := NotedGivesUp(a, now, x, r);
      HeadWaitsLongest(a, now, b.order, y);
      GiveUp(b, a, now);
      ParkNew(b.refs - {y}, b.order[1..], a - {y}, now, x, r);
    } else {
      ParkNew(b.refs, b.order, a, now, x, r);
    }
  }

  lemma FirstIsLast(r: PendingRef)
    ensures LastRefs([r]) == [r]
  {
  }

  lemma RetainedOrder(a: Record, order: seq<MessageId>, x: MessageId)
    requires InOrder(a, order)
    ensures InOrder(a - {x}, Retained(order, x))
  {
    RetainedMembers(order, x);
    RetainedInOrder(a, order, x);
    var s := Retained(order, x);
    assert forall i :: 0 <= i < |s| ==> s[i] in s;
  }

  lemma DrainAgrees(b: Buffer, a: Record, now: nat, x: MessageId)
    requires Agrees(b, a, now)
    ensures Agrees(AfterDrain(b, x), a - {x}, now + 1)
  {
    hide InOrder;
    if x in a {
      assert LastRefs(a[x].all) != [];
      RetainedOrder(a, b.order, x);
      RetainedMembers(b.order, x);
    } else {
      assert a - {x} == a && b.refs - {x} == b.refs;
    }
  }

  /** Every run agrees with the ideal record of the same events. */
  lemma {:induction false} RunAgrees(es: seq<Event>)
    ensures Agrees(Run(es), Recorded(es), |es|)
  {
    hide Agrees, AfterPark, AfterDrain, Noted;
    if es == [] {
      NothingAgreesAt(0);
    } else {
      var n := |es| - 1;
      RunAgrees(es[..n]);
      match es[n]
      case Parks(x, r) => ParkAgrees(Run(es[..n]), Recorded(es[..n]), n, x, r);
      case Drains(x) => DrainAgrees(Run(es[..n]), Recorded(es[..n]), n, x);
      case Clears => NothingAgreesAt(|es|);
    }
  }

  lemma NothingAgreesAt(now: nat)
    ensures Agrees(EMPTY, map[], now)
  {
  }

  // ------------------------------------------------------------- what runs keep

  /** The refs parked for a target, in arrival order. */
  function RefsFor(es: seq<Event>, x: MessageId): seq<PendingRef> {
    if es == [] then []
    else
      var e := es[|es| - 1];
      RefsFor(es[..|es| - 1], x) + if e.Parks? && e.target == x then [e.ref] else []
  }

  /** What the last event did to a target that waits after it. */
  lemma LastEvent(es: seq<Event>, x: MessageId)
    requires x in Recorded(es)
    ensures es != [] && es[|es| - 1] != Drains(x) && es[|es| - 1] != Clears
    ensures var before, e, w := Recorded(es[..|es| - 1]), es[|es| - 1], Recorded(es)[x];
            if x in before then
              w == if e.Parks? && e.target == x then Wait(before[x].since, before[x].all + [e.ref]) else before[x]
            else e.Parks? && e.target == x && w == Wait(|es| - 1, [e.ref])
  {
    var n := |es| - 1;
    var before, e := Recorded(es[..n]), es[n];
    if e.Parks? && e.target !in before && |before| >= TARGET_CAP {
      var y := NotedGivesUp(before, n, e.target, e.ref);
    }
  }

  /** After the first `since` events `x` was absent; the next one parked for it, and it has not been absent again. */
  ghost predicate WaitsSince(es: seq<Event>, x: MessageId, since: nat) {
    && since < |es| && x !in Run(es[..since]).refs
    && forall k :: since < k <= |es| ==> x in Run(es[..k]).refs
  }

  /** The record says when a waiting target came and holds everything parked for it from then on. */
  lemma {:induction false} RecordIsHistory(es: seq<Event>, x: MessageId)
    requires x in Recorded(es)
    ensures var w := Recorded(es)[x];
            w.since < |es| && x !in Recorded(es[..w.since]) && w.all == RefsFor(es[w.since..], x)
    ensures forall k :: Recorded(es)[x].since < k <= |es| ==> x in Recorded(es[..k])
  {
    hide Recorded;
    LastEvent(es, x);
    var n := |es| - 1;
    var before, w := Recorded(es[..n]), Recorded(es)[x];
    assert es[..|es|] == es;
    if x in before {
      RecordIsHistory(es[..n], x);
      assert w.since == before[x].since < n;
      assert es[..n][..w.since] == es[..w.since];
      assert forall k :: 0 <= k <= n ==> es[..n][..k] == es[..k];
      assert es[w.since..][..n - w.since] == es[..n][w.since..];
      assert es[w.since..] == es[..n][w.since..] + [es[n]];
    } else {
      assert es[w.since..] == [es[n]];
      assert [es[n]][..0] == [];
      assert RefsFor([es[n]][..0], x) == [];
    }
  }

  lemma SameTargets(es: seq<Event>)
    ensures Run(es).refs.Keys == Recorded(es).Keys
  {
    hide Run, Recorded;
    RunAgrees(es);
  }

  /** A target is parked exactly if it waits since some event, and that event is one only. */
  lemma ParkedWaits(es: seq<Event>, x: MessageId)
    ensures x in Run(es).refs <==> exists since: nat :: WaitsSince(es, x, since)
    ensures x in Run(es).refs ==> x in Recorded(es) && WaitsSince(es, x, Recorded(es)[x].since)
  {
    hide Run, Recorded;
    SameTargets(es);
    assert es[..|es|] == es;
    if x in Run(es).refs {
      RecordIsHistory(es, x);
      var since := Recorded(es)[x].since;
      SameTargets(es[..since]);
      forall k | since < k <= |es|
        ensures x in Run(es[..k]).refs
      {
        SameTargets(es[..k]);
      }
      assert WaitsSince(es, x, since);
    }
  }

  lemma WaitsSinceOnce(es: seq<Event>, x: MessageId, a: nat, b: nat)
    requires WaitsSince(es, x, a) && WaitsSince(es, x, b)
    ensures a == b
  {
    hide Run;
    assert x !in Run(es[..a]).refs && x !in Run(es[..b]).refs;
  }

  /** The bounds that hold after every run. */
  lemma RunIsBounded(es: seq<Event>)
    ensures var b := Run(es);
            && Unrepeated(b.order) && |b.order| <= TARGET_CAP
            && (forall x :: x in b.order <==> x in b.refs)
            && forall x <- b.refs :: 1 <= |b.refs[x]| <= REFS_PER_TARGET
  {
    RunAgrees(es);
    var b, a := Run(es), Recorded(es);
    forall x <- b.refs
      ensures 1 <= |b.refs[x]| <= REFS_PER_TARGET
    {
      assert x in a;
    }
  }

  /** What a drain returns after any run: the last refs parked for the target since it was last absent, in order; nothing if it is absent. */
  lemma DrainIsHistory(es: seq<Event>, x: MessageId)
    ensures x !in Run(es).refs ==> Parked(Run(es), x) == []
    ensures x in Run(es).refs <==> exists since: nat :: WaitsSince(es, x, since)
    ensures forall since: nat :: WaitsSince(es, x, since) ==> Parked(Run(es), x) == LastRefs(RefsFor(es[since..], x))
  {
    hide Run, Recorded, RefsFor, LastRefs;
    ParkedWaits(es, x);
    RunAgrees(es);
    forall since: nat | WaitsSince(es, x, since)
      ensures Parked(Run(es), x) == LastRefs(RefsFor(es[since..], x))
    {
      RecordIsHistory(es, x);
      WaitsSinceOnce(es, x, since, Recorded(es)[x].since);
    }
  }

  /** A target leaves unasked only when a new one comes to a full buffer, and then it is the one that came first. */
  lemma EvictionIsOldest(es: seq<Event>, x: MessageId, e: Event)
    requires x in Run(es).refs && x !in Step(Run(es), e).refs && e != Drains(x) && e != Clears
    ensures |Run(es).refs| == TARGET_CAP && e.Parks? && e.target !in Run(es).refs
    ensures LongestWaiting(Recorded(es), x)
  {
    hide Run, Recorded, LastRefs;
    RunAgrees(es);
    var b, a := Run(es), Recorded(es);
    OrderCounts(a, b.order);
    assert |b.refs.Keys| == |a.Keys|;
    assert |b.refs| == |b.refs.Keys| && |a| == |a.Keys|;
    if e.Parks? && b.order != [] {
      HeadWaitsLongest(a, |es|, b.order, x);
    }
  }
}
