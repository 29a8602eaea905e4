/**
 The prerequisite graph of a board: task id to the ids it is blocked by, and
 the depth-first search that looks for a cycle from a set of roots. Ids are
 numbers: an id is 32 lowercase hex digits, whose byte order is numeric order.
 */
module TaskGraph {
  import opened Prelude
  import opened Sorting

  type Graph = map<nat, seq<nat>>

  predicate Edge(g: Graph, a: nat, b: nat) {
    a in g && b in g && b in g[a]
  }

  ghost predicate Path(g: Graph, p: seq<nat>) {
    |p| >= 1 && p[0] in g && forall i :: 0 <= i < |p| - 1 ==> Edge(g, p[i], p[i + 1])
  }

  ghost predicate PathFromTo(g: Graph, p: seq<nat>, a: nat, b: nat) {
    Path(g, p) && p[0] == a && p[|p| - 1] == b
  }

  ghost predicate Reaches(g: Graph, a: nat, b: nat) {
    exists p :: PathFromTo(g, p, a, b)
  }

  /** `x` lies on a cycle of at least one link. */
  ghost predicate OnCycle(g: Graph, x: nat) {
    exists p :: PathFromTo(g, p, x, x) && |p| >= 2
  }

  ghost predicate Acyclic(g: Graph) {
    forall x :: !OnCycle(g, x)
  }

  /** From `x` a cycle can be reached. */
  ghost predicate Leads(g: Graph, x: nat) {
    exists y :: Reaches(g, x, y) && OnCycle(g, y)
  }

  /** The first root that leads to a cycle. */
  ghost predicate FirstRoot(g: Graph, roots: seq<nat>, r: nat) {
    exists i :: 0 <= i < |roots| && roots[i] == r && Leads(g, r) && forall k :: 0 <= k < i ==> !Leads(g, roots[k])
  }

  /** The first link of `a` that leads to a cycle goes to `b`. */
  ghost predicate FirstLink(g: Graph, a: nat, b: nat) {
    a in g && FirstRoot(g, g[a], b)
  }

  /** Following from `r` always the first link that leads to a cycle, `x` is the first task met again. */
  ghost predicate FirstMetAgain(g: Graph, r: nat, x: nat) {
    exists p :: FirstTrail(g, p, x) && p[0] == r
  }

  ghost predicate FirstTrail(g: Graph, p: seq<nat>, x: nat) {
    && p != [] && Unrepeated(p) && x in p
    && (forall i :: 0 <= i < |p| - 1 ==> FirstLink(g, p[i], p[i + 1]))
    && FirstLink(g, p[|p| - 1], x)
  }

  // ---------------------------------------------------------------- the search

  /** A stack entry: a node and the index of its next unexplored link. */
  datatype Frame = Frame(node: nat, next: nat)

  const ON_PATH: nat := 1
  const DONE: nat := 2

  predicate StackOk(g: Graph, stack: seq<Frame>) {
    forall k :: 0 <= k < |stack| ==> stack[k].node in g && stack[k].next <= |g[stack[k].node]|
  }

  function Work(g: Graph, stack: seq<Frame>): nat
    requires StackOk(g, stack)
  {
    if stack == [] then 0
    else
      var f := stack[|stack| - 1];
      Work(g, stack[..|stack| - 1]) + |g[f.node]| - f.next + 1
  }

  lemma WorkPush(g: Graph, stack: seq<Frame>, f: Frame)
    requires StackOk(g, stack) && f.node in g && f.next <= |g[f.node]|
    ensures StackOk(g, stack + [f]) && Work(g, stack + [f]) == Work(g, stack) + |g[f.node]| - f.next + 1
  {
    assert (stack + [f])[..|stack|] == stack;
  }

  function White(g: Graph, color: map<nat, nat>): set<nat> {
    g.Keys - color.Keys
  }

  /** The stack with its top frame's index moved on. */
  function Bumped(stack: seq<Frame>): seq<Frame>
    requires stack != []
  {
    stack[..|stack| - 1] + [Frame(stack[|stack| - 1].node, stack[|stack| - 1].next + 1)]
  }

  datatype Turn = Found(node: nat) | Go(color: map<nat, nat>, stack: seq<Frame>)

  /** One turn of the loop: follow the top frame's next link, or finish its node. */
  function Step(g: Graph, color: map<nat, nat>, stack: seq<Frame>): (r: Turn)
    requires stack != [] && StackOk(g, stack)
  {
    var below, f := stack[..|stack| - 1], stack[|stack| - 1];
    if f.next < |g[f.node]| then
      var next := g[f.node][f.next];
      if next in color && color[next] == ON_PATH then Found(next)
      else if next !in color && next in g then Go(color[next := ON_PATH], Bumped(stack) + [Frame(next, 0)])
      else Go(color, Bumped(stack))
    else Go(color[f.node := DONE], below)
  }

  lemma StepDecreases(g: Graph, color: map<nat, nat>, stack: seq<Frame>)
    requires stack != [] && StackOk(g, stack) && Step(g, color, stack).Go?
    ensures var t := Step(g, color, stack);
            && StackOk(g, t.stack)
            && |White(g, t.color)| <= |White(g, color)|
            && (|White(g, t.color)| == |White(g, color)| ==> Work(g, t.stack) < Work(g, stack))
  {
    hide Work, White;
    var below, f := stack[..|stack| - 1], stack[|stack| - 1];
    assert below + [f] == stack;
    WorkPush(g, below, f);
    if f.next < |g[f.node]| {
      var next := g[f.node][f.next];
      var bumped := below + [Frame(f.node, f.next + 1)];
      WorkPush(g, below, Frame(f.node, f.next + 1));
      if next !in color && next in g {
        WhiteShrinks(g, color, next);
        WorkPush(g, bumped, Frame(next, 0));
      }
    } else {
      WhiteSame(g, color, f.node);
    }
  }

  lemma WhiteShrinks(g: Graph, color: map<nat, nat>, x: nat)
    requires x in g && x !in color
    ensures |White(g, color[x := ON_PATH])| < |White(g, color)|
  {
    assert White(g, color[x := ON_PATH]) == White(g, color) - {x};
  }

  lemma SubsetCard(a: set<nat>, b: set<nat>)
    requires a <= b
    ensures |a| <= |b|
  {
    assert b == a + (b - a);
  }

  lemma WhiteSame(g: Graph, color: map<nat, nat>, x: nat)
    ensures |White(g, color[x := DONE])| <= |White(g, color)|
  {
    SubsetCard(White(g, color[x := DONE]), White(g, color));
  }

  /** Run until the stack is empty or a link closes a cycle. */
  function Dfs(g: Graph, color: map<nat, nat>, stack: seq<Frame>): (r: (Option<nat>, map<nat, nat>))
    requires StackOk(g, stack)
    decreases |White(g, color)|, Work(g, stack)
  {
    if stack == [] then (None, color)
    else
      match Step(g, color, stack)
      case Found(x) => (Some(x), color)
      case Go(color', stack') =>
        StepDecreases(g, color, stack);
        Dfs(g, color', stack')
  }

  function FindFrom(g: Graph, color: map<nat, nat>, roots: seq<nat>): Option<nat>
    decreases |roots|
  {
    if roots == [] then None
    else
      var root := roots[0];
      if root in color || root !in g then FindFrom(g, color, roots[1..])
      else
        var (found, color') := Dfs(g, color[root := ON_PATH], [Frame(root, 0)]);
        if found.Some? then found else FindFrom(g, color', roots[1..])
  }

  /** A task on a cycle reachable from the roots, if any. */
  function FindCycle(g: Graph, roots: seq<nat>): Option<nat> {
    FindFrom(g, map[], roots)
  }

  // --------------------------------------------------------------- correctness

  /** Finished nodes in finishing order: every link leads to an earlier one. */
  ghost predicate FinishOrder(g: Graph, done: seq<nat>) {
    && Unrepeated(done)
    && (forall i :: 0 <= i < |done| ==> done[i] in g)
    && (forall i, y :: 0 <= i < |done| && Edge(g, done[i], y) ==> y in done[..i])
  }

  ghost predicate Coloured(g: Graph, color: map<nat, nat>, stack: seq<Frame>, done: seq<nat>) {
    && color.Keys <= g.Keys
    && (forall x <- color :: color[x] == ON_PATH || color[x] == DONE)
    && (forall k :: 0 <= k < |stack| ==> stack[k].node in color && color[stack[k].node] == ON_PATH)
    && (forall x <- color :: color[x] == ON_PATH ==> exists k :: 0 <= k < |stack| && stack[k].node == x)
    && (forall x :: x in done <==> x in color && color[x] == DONE)
  }

  /** The links of a frame before its index are finished, the last one possibly the next frame. */
  ghost predicate FrameExplored(g: Graph, f: Frame, done: seq<nat>, limit: int)
    requires f.node in g && limit <= |g[f.node]|
  {
    forall j :: 0 <= j < limit && g[f.node][j] in g ==> g[f.node][j] in done
  }

  ghost predicate Chained(g: Graph, stack: seq<Frame>, done: seq<nat>)
    requires StackOk(g, stack)
  {
    && (forall i, j :: 0 <= i < j < |stack| ==> stack[i].node != stack[j].node)
    && (forall k :: 0 <= k < |stack| - 1 ==>
          1 <= stack[k].next && g[stack[k].node][stack[k].next - 1] == stack[k + 1].node
          && FrameExplored(g, stack[k], done, stack[k].next - 1))
    && (stack != [] ==> FrameExplored(g, stack[|stack| - 1], done, stack[|stack| - 1].next))
  }

  ghost predicate DfsInv(g: Graph, color: map<nat, nat>, stack: seq<Frame>, done: seq<nat>) {
    StackOk(g, stack) && FinishOrder(g, done) && Coloured(g, color, stack, done) && Chained(g, stack, done)
  }

  /** The stack is a path. */
  lemma StackPath(g: Graph, stack: seq<Frame>, done: seq<nat>, a: nat, b: nat)
    requires StackOk(g, stack) && Chained(g, stack, done) && a <= b < |stack|
    ensures PathFromTo(g, seq(b - a + 1, k requires 0 <= k <= b - a => stack[a + k].node), stack[a].node, stack[b].node)
  {
    var p := seq(b - a + 1, k requires 0 <= k <= b - a => stack[a + k].node);
    forall i | 0 <= i < |p| - 1
      ensures Edge(g, p[i], p[i + 1])
    {
      var f := stack[a + i];
      assert g[f.node][f.next - 1] == stack[a + i + 1].node;
    }
  }

  /** A link back to a node on the stack closes a cycle. */
  lemma ClosesCycle(g: Graph, stack: seq<Frame>, done: seq<nat>, k: nat, x: nat)
    requires StackOk(g, stack) && Chained(g, stack, done) && k < |stack| && stack[k].node == x
    requires Edge(g, stack[|stack| - 1].node, x)
    ensures OnCycle(g, x) && Reaches(g, stack[0].node, x)
  {
    var top := |stack| - 1;
    StackPath(g, stack, done, 0, k);
    StackPath(g, stack, done, k, top);
    var p := seq(top - k + 1, i requires 0 <= i <= top - k => stack[k + i].node);
    assert PathFromTo(g, p + [x], x, x);
  }

  // ------------------------------------------------ what one turn keeps

  lemma DoneGrows(g: Graph, stack: seq<Frame>, done: seq<nat>, x: nat)
    requires StackOk(g, stack) && Chained(g, stack, done)
    ensures Chained(g, stack, done + [x])
  {
  }

  /** Every link of the finished node is finished before it. */
  lemma FinishNode(g: Graph, color: map<nat, nat>, stack: seq<Frame>, done: seq<nat>)
    requires DfsInv(g, color, stack, done) && stack != []
    requires stack[|stack| - 1].next == |g[stack[|stack| - 1].node]|
    ensures var x := stack[|stack| - 1].node;
            DfsInv(g, color[x := DONE], stack[..|stack| - 1], done + [x])
  {
    var top := |stack| - 1;
    var x, below, done' := stack[top].node, stack[..top], done + [stack[top].node];
    assert x in color && color[x] == ON_PATH && x !in done;
    DoneGrows(g, stack, done, x);
    forall i, y | 0 <= i < |done'| && Edge(g, done'[i], y)
      ensures y in done'[..i]
    {
      if i < |done| {
        assert done'[..i] == done[..i];
      } else {
        var j :| 0 <= j < |g[x]| && g[x][j] == y;
        assert done'[..i] == done;
      }
    }
    assert FinishOrder(g, done');
    FinishFrames(g, stack, done');
    var color' := color[x := DONE];
    forall y <- color' | color'[y] == ON_PATH
      ensures exists k :: 0 <= k < |below| && below[k].node == y
    {
      var k :| 0 <= k < |stack| && stack[k].node == y;
      assert below[k].node == y;
    }
  }

  lemma FinishFrames(g: Graph, stack: seq<Frame>, done: seq<nat>)
    requires StackOk(g, stack) && stack != [] && Chained(g, stack, done) && stack[|stack| - 1].node in done
    ensures StackOk(g, stack[..|stack| - 1]) && Chained(g, stack[..|stack| - 1], done)
  {
    var below := stack[..|stack| - 1];
    if below != [] {
      var f := below[|below| - 1];
      assert f == stack[|below| - 1];
      forall j | 0 <= j < f.next && g[f.node][j] in g
        ensures g[f.node][j] in done
      {
        if j == f.next - 1 {
          assert g[f.node][j] == stack[|stack| - 1].node;
        }
      }
    }
  }

  /** Colours only look at the nodes of the stack. */
  lemma ColouredByNodes(g: Graph, color: map<nat, nat>, stack: seq<Frame>, stack': seq<Frame>, done: seq<nat>)
    requires Coloured(g, color, stack, done)
    requires |stack| == |stack'| && forall k :: 0 <= k < |stack| ==> stack'[k].node == stack[k].node
    ensures Coloured(g, color, stack', done)
  {
    forall y <- color | color[y] == ON_PATH
      ensures exists k :: 0 <= k < |stack'| && stack'[k].node == y
    {
      var k :| 0 <= k < |stack| && stack[k].node == y;
      assert stack'[k].node == y;
    }
  }

  lemma BumpChained(g: Graph, stack: seq<Frame>, done: seq<nat>)
    requires stack != [] && StackOk(g, stack) && Chained(g, stack, done)
    requires var f := stack[|stack| - 1]; f.next < |g[f.node]| && (g[f.node][f.next] in g ==> g[f.node][f.next] in done)
    ensures StackOk(g, Bumped(stack)) && Chained(g, Bumped(stack), done)
  {
    var stack', top := Bumped(stack), |stack| - 1;
    assert forall k :: 0 <= k < top ==> stack'[k] == stack[k];
    assert stack'[top].node == stack[top].node;
    assert FrameExplored(g, stack'[top], done, stack'[top].next);
  }

  /** Skipping a finished or unknown link. */
  lemma BumpFrame(g: Graph, color: map<nat, nat>, stack: seq<Frame>, done: seq<nat>)
    requires DfsInv(g, color, stack, done) && stack != []
    requires var f := stack[|stack| - 1]; f.next < |g[f.node]| && (g[f.node][f.next] in g ==> g[f.node][f.next] in done)
    ensures DfsInv(g, color, Bumped(stack), done)
  {
    hide Coloured, Chained, FinishOrder;
    BumpChained(g, stack, done);
    ColouredByNodes(g, color, stack, Bumped(stack), done);
  }

  lemma SameExplored(g: Graph, f: Frame, f': Frame, done: seq<nat>, limit: int)
    requires f.node == f'.node && f.node in g && limit <= |g[f.node]| && FrameExplored(g, f, done, limit)
    ensures FrameExplored(g, f', done, limit)
  {
  }

  lemma NothingExplored(g: Graph, x: nat, done: seq<nat>)
    requires x in g
    ensures FrameExplored(g, Frame(x, 0), done, 0)
  {
  }

  lemma PushChained(g: Graph, stack: seq<Frame>, done: seq<nat>, x: nat)
    requires stack != [] && StackOk(g, stack) && Chained(g, stack, done)
    requires var f := stack[|stack| - 1]; f.next < |g[f.node]| && g[f.node][f.next] == x
    requires x in g && forall k :: 0 <= k < |stack| ==> stack[k].node != x
    ensures StackOk(g, Bumped(stack) + [Frame(x, 0)]) && Chained(g, Bumped(stack) + [Frame(x, 0)], done)
  {
    hide FrameExplored;
    var stack', top := Bumped(stack) + [Frame(x, 0)], |stack| - 1;
    assert forall k :: 0 <= k < top ==> stack'[k] == stack[k];
    assert stack'[top] == Frame(stack[top].node, stack[top].next + 1);
    assert stack'[top + 1] == Frame(x, 0);
    SameExplored(g, stack[top], stack'[top], done, stack[top].next);
    NothingExplored(g, x, done);
  }

  lemma PushColoured(g: Graph, color: map<nat, nat>, stack: seq<Frame>, done: seq<nat>, x: nat)
    requires Coloured(g, color, stack, done) && x in g && x !in color
    ensures Coloured(g, color[x := ON_PATH], stack + [Frame(x, 0)], done)
  {
    var stack', color' := stack + [Frame(x, 0)], color[x := ON_PATH];
    forall y <- color' | color'[y] == ON_PATH
      ensures exists k :: 0 <= k < |stack'| && stack'[k].node == y
    {
      if y == x {
        assert stack'[|stack|].node == x;
      } else {
        var k :| 0 <= k < |stack| && stack[k].node == y;
        assert stack'[k].node == y;
      }
    }
  }

  /** Descending into an unseen node. */
  lemma PushFrame(g: Graph, color: map<nat, nat>, stack: seq<Frame>, done: seq<nat>, x: nat)
    requires DfsInv(g, color, stack, done) && stack != []
    requires var f := stack[|stack| - 1]; f.next < |g[f.node]| && g[f.node][f.next] == x
    requires x in g && x !in color
    ensures DfsInv(g, color[x := ON_PATH], Bumped(stack) + [Frame(x, 0)], done)
  {
    hide Chained, FinishOrder;
    PushChained(g, stack, done, x);
    ColouredByNodes(g, color, stack, Bumped(stack), done);
    hide Coloured;
    PushColoured(g, color, Bumped(stack), done, x);
  }

  /** A whole run: either a cycle reachable from the bottom of the stack, or everything finished. */
  lemma {:induction false} DfsCorrect(g: Graph, color: map<nat, nat>, stack: seq<Frame>, done: seq<nat>)
      returns (done': seq<nat>)
    requires DfsInv(g, color, stack, done)
    ensures var (found, color') := Dfs(g, color, stack);
            if found.Some? then stack != [] && Closes(g, stack[0].node, found.value)
            else DfsInv(g, color', [], done') && done <= done' && forall k :: 0 <= k < |stack| ==> stack[k].node in done'
    decreases |White(g, color)|, Work(g, stack)
  {
    hide Work, White, DfsInv;
    done' := done;
    if stack != [] {
      assert StackOk(g, stack) by { InvStack(g, color, stack, done); }
      var top := |stack| - 1;
      var f := stack[top];
      match Step(g, color, stack)
      case Found(x) =>
      case Go(color', stack') =>
        StepDecreases(g, color, stack);
        var mid := InvStep(g, color, stack, done);
        done' := DfsCorrect(g, color', stack', mid);
        StepBottom(g, color, stack);
    }
  }

  lemma InvStack(g: Graph, color: map<nat, nat>, stack: seq<Frame>, done: seq<nat>)
    requires DfsInv(g, color, stack, done)
    ensures StackOk(g, stack)
  {
  }

  /** A search begun at `r` meets `x` again. */
  ghost predicate Closes(g: Graph, r: nat, x: nat) {
    exists color: map<nat, nat>, stack: seq<Frame>, done: seq<nat> :: DfsInv(g, color, stack, done) && MeetsAgain(g, color, stack, x) && stack != [] && stack[0].node == r
  }

  ghost predicate MeetsAgain(g: Graph, color: map<nat, nat>, stack: seq<Frame>, x: nat) {
    StackOk(g, stack) && stack != [] && Step(g, color, stack) == Found(x)
  }

  lemma InvFound(g: Graph, color: map<nat, nat>, stack: seq<Frame>, done: seq<nat>, x: nat) returns (k: nat)
    requires DfsInv(g, color, stack, done) && MeetsAgain(g, color, stack, x)
    ensures k < |stack| && stack[k].node == x && Edge(g, stack[|stack| - 1].node, x)
    ensures OnCycle(g, x) && Reaches(g, stack[0].node, x)
  {
    hide OnCycle, Reaches;
    k :| 0 <= k < |stack| && stack[k].node == x;
    ClosesCycle(g, stack, done, k, x);
  }

  /** What is finished leads to no cycle. */
  lemma DoneLeadsNowhere(g: Graph, done: seq<nat>, x: nat)
    requires FinishOrder(g, done) && (x in g ==> x in done)
    ensures !Leads(g, x)
  {
    hide OnCycle, FinishOrder;
    forall y | Reaches(g, x, y)
      ensures !OnCycle(g, y)
    {
      ReachStaysInOrder(g, done, x, y);
      NoCycleInOrder(g, done, y);
    }
  }

  /** When the search meets `x` again every node of the stack leads there. */
  lemma StackLeads(g: Graph, color: map<nat, nat>, stack: seq<Frame>, done: seq<nat>, x: nat, i: nat)
    requires DfsInv(g, color, stack, done) && MeetsAgain(g, color, stack, x) && i < |stack|
    ensures Leads(g, stack[i].node) && Leads(g, x)
  {
    hide OnCycle;
    var k := InvFound(g, color, stack, done, x);
    var top := |stack| - 1;
    StackPath(g, stack, done, i, top);
    var p := seq(top - i + 1, j requires 0 <= j <= top - i => stack[i + j].node);
    assert PathFromTo(g, p + [x], stack[i].node, x);
    assert PathFromTo(g, [x], x, x);
  }

  lemma ExploredLeadsNowhere(g: Graph, f: Frame, done: seq<nat>, limit: int)
    requires FinishOrder(g, done) && f.node in g && 0 <= limit < |g[f.node]| && FrameExplored(g, f, done, limit)
    requires Leads(g, g[f.node][limit])
    ensures FirstLink(g, f.node, g[f.node][limit])
  {
    hide Leads, FinishOrder;
    forall j | 0 <= j < limit
      ensures !Leads(g, g[f.node][j])
    {
      DoneLeadsNowhere(g, done, g[f.node][j]);
    }
  }

  /** The stack is the trail of first links that lead to a cycle. */
  lemma StackIsTrail(g: Graph, color: map<nat, nat>, stack: seq<Frame>, done: seq<nat>, x: nat)
    requires DfsInv(g, color, stack, done) && MeetsAgain(g, color, stack, x)
    ensures Leads(g, stack[0].node) && FirstMetAgain(g, stack[0].node, x)
  {
    hide Leads, FirstLink, FinishOrder, Coloured, FrameExplored;
    var top := |stack| - 1;
    var p := seq(|stack|, j requires 0 <= j < |stack| => stack[j].node);
    StackLeads(g, color, stack, done, x, 0);
    forall i | 0 <= i < |p| - 1
      ensures FirstLink(g, p[i], p[i + 1])
    {
      StackLeads(g, color, stack, done, x, i + 1);
      ExploredLeadsNowhere(g, stack[i], done, stack[i].next - 1);
    }
    ExploredLeadsNowhere(g, stack[top], done, stack[top].next);
    var k := InvFound(g, color, stack, done, x);
    assert p[k] == x;
    assert FirstTrail(g, p, x);
  }

  lemma ClosesIs(g: Graph, r: nat, x: nat)
    requires Closes(g, r, x)
    ensures OnCycle(g, x) && Reaches(g, r, x) && Leads(g, r) && FirstMetAgain(g, r, x)
  {
    hide DfsInv, MeetsAgain, OnCycle, Reaches, Leads, FirstMetAgain;
    var color: map<nat, nat>, stack: seq<Frame>, done: seq<nat> :| DfsInv(g, color, stack, done) && MeetsAgain(g, color, stack, x) && stack != [] && stack[0].node == r;
    var k := InvFound(g, color, stack, done, x);
    StackIsTrail(g, color, stack, done, x);
  }

  lemma InvStep(g: Graph, color: map<nat, nat>, stack: seq<Frame>, done: seq<nat>) returns (done': seq<nat>)
    requires DfsInv(g, color, stack, done) && stack != [] && Step(g, color, stack).Go?
    ensures var t := Step(g, color, stack);
            DfsInv(g, t.color, t.stack, done') && done <= done'
            && (|t.stack| < |stack| ==> stack[|stack| - 1].node in done')
  {
    var f := stack[|stack| - 1];
    done' := done;
    if f.next < |g[f.node]| {
      var next := g[f.node][f.next];
      if next !in color && next in g {
        PushFrame(g, color, stack, done, next);
      } else {
        BumpFrame(g, color, stack, done);
      }
    } else {
      FinishNode(g, color, stack, done);
      done' := done + [f.node];
    }
  }

  /** A turn keeps every node of the stack below the top, and the top unless it finishes it. */
  lemma StepBottom(g: Graph, color: map<nat, nat>, stack: seq<Frame>)
    requires stack != [] && StackOk(g, stack) && Step(g, color, stack).Go?
    ensures var t := Step(g, color, stack);
            forall k :: 0 <= k < |stack| ==> (k < |stack| - 1 || |t.stack| >= |stack|) ==>
              k < |t.stack| && t.stack[k].node == stack[k].node
  {
  }

  lemma StartRoot(g: Graph, color: map<nat, nat>, done: seq<nat>, root: nat)
    requires DfsInv(g, color, [], done) && root in g && root !in color
    ensures DfsInv(g, color[root := ON_PATH], [Frame(root, 0)], done)
  {
    PushColoured(g, color, [], done, root);
    assert [] + [Frame(root, 0)] == [Frame(root, 0)];
  }

  lemma {:induction false} FindFromCorrect(g: Graph, color: map<nat, nat>, done: seq<nat>, roots: seq<nat>)
      returns (done': seq<nat>)
    requires DfsInv(g, color, [], done)
    ensures match FindFrom(g, color, roots)
            case Some(x) => exists r :: FirstRoot(g, roots, r) && Closes(g, r, x)
            case None => FinishOrder(g, done') && done <= done' && forall r :: r in roots && r in g ==> r in done'
    decreases |roots|
  {
    hide FinishOrder, Closes, FirstRoot, Leads;
    done' := done;
    if roots == [] {
      assert FinishOrder(g, done);
    } else {
      var root := roots[0];
      if root in color || root !in g {
        done' := FindFromCorrect(g, color, done, roots[1..]);
        assert root in g ==> root in done;
        DoneLeadsNowhere(g, done, root);
        LaterRoot(g, roots);
      } else {
        hide DfsInv;
        StartRoot(g, color, done, root);
        var mid := DfsCorrect(g, color[root := ON_PATH], [Frame(root, 0)], done);
        var (found, color') := Dfs(g, color[root := ON_PATH], [Frame(root, 0)]);
        if found.None? {
          assert [Frame(root, 0)][0].node in mid;
          done' := FindFromCorrect(g, color', mid, roots[1..]);
          InvOrder(g, color', mid);
          DoneLeadsNowhere(g, mid, root);
          LaterRoot(g, roots);
        } else {
          ClosesIs(g, root, found.value);
          ThisRoot(g, roots);
        }
      }
    }
  }

  lemma InvOrder(g: Graph, color: map<nat, nat>, done: seq<nat>)
    requires DfsInv(g, color, [], done)
    ensures FinishOrder(g, done)
  {
  }

  lemma ThisRoot(g: Graph, roots: seq<nat>)
    requires roots != [] && Leads(g, roots[0])
    ensures FirstRoot(g, roots, roots[0])
  {
  }

  lemma LaterRoot(g: Graph, roots: seq<nat>)
    requires roots != [] && !Leads(g, roots[0])
    ensures forall r :: FirstRoot(g, roots[1..], r) ==> FirstRoot(g, roots, r)
  {
    hide Leads;
    forall r | FirstRoot(g, roots[1..], r)
      ensures FirstRoot(g, roots, r)
    {
      var i :| 0 <= i < |roots[1..]| && roots[1..][i] == r && Leads(g, r) && forall k :: 0 <= k < i ==> !Leads(g, roots[1..][k]);
      assert forall k :: 1 <= k < i + 1 ==> roots[k] == roots[1..][k - 1];
      assert roots[i + 1] == r;
    }
  }

  /** A path stays inside the finishing order and moves towards its front. */
  lemma {:induction false} PathDescends(g: Graph, done: seq<nat>, p: seq<nat>, k: nat)
    requires FinishOrder(g, done) && Path(g, p) && k < |done| && p[0] == done[k] && |p| >= 2
    ensures p[|p| - 1] in done[..k]
  {
    assert Edge(g, p[0], p[1]);
    assert p[1] in done[..k];
    if |p| > 2 {
      var j :| 0 <= j < k && done[j] == p[1];
      assert Path(g, p[1..]) by {
        forall i | 0 <= i < |p[1..]| - 1
          ensures Edge(g, p[1..][i], p[1..][i + 1])
        {
          assert Edge(g, p[i + 1], p[i + 2]);
        }
      }
      PathDescends(g, done, p[1..], j);
      assert done[..j] <= done[..k];
    }
  }

  lemma NoCycleInOrder(g: Graph, done: seq<nat>, x: nat)
    requires FinishOrder(g, done) && x in done
    ensures !OnCycle(g, x)
  {
    if OnCycle(g, x) {
      var p :| PathFromTo(g, p, x, x) && |p| >= 2;
      var k :| 0 <= k < |done| && done[k] == x;
      PathDescends(g, done, p, k);
    }
  }

  lemma ReachStaysInOrder(g: Graph, done: seq<nat>, a: nat, x: nat)
    requires FinishOrder(g, done) && a in done && Reaches(g, a, x)
    ensures x in done
  {
    var p :| PathFromTo(g, p, a, x);
    var k :| 0 <= k < |done| && done[k] == a;
    if |p| >= 2 {
      PathDescends(g, done, p, k);
    }
  }

  lemma EmptyInv(g: Graph)
    ensures DfsInv(g, map[], [], [])
  {
  }

  /** The search reports a task on a reachable cycle, and none exactly when there is none. */
  lemma FindCycleExact(g: Graph, roots: seq<nat>)
    ensures match FindCycle(g, roots)
            case Some(x) => OnCycle(g, x) && exists r :: r in roots && Reaches(g, r, x)
            case None => forall r, x :: r in roots && Reaches(g, r, x) ==> !OnCycle(g, x)
  {
    hide OnCycle, DfsInv, FinishOrder, Closes, Leads;
    EmptyInv(g);
    var done := FindFromCorrect(g, map[], [], roots);
    if FindCycle(g, roots).None? {
      forall r, x | r in roots && Reaches(g, r, x)
        ensures !OnCycle(g, x)
      {
        ReachStaysInOrder(g, done, r, x);
        NoCycleInOrder(g, done, x);
      }
    } else {
      var x := FindCycle(g, roots).value;
      var r :| FirstRoot(g, roots, r) && Closes(g, r, x);
      ClosesIs(g, r, x);
    }
  }

  /** Which task it reports: from the first root that leads to a cycle, along the first links that do, the first one met again. */
  lemma FoundIsFirst(g: Graph, roots: seq<nat>)
    ensures FindCycle(g, roots).Some? ==> exists r :: FirstRoot(g, roots, r) && FirstMetAgain(g, r, FindCycle(g, roots).value)
  {
    hide DfsInv, Closes, FirstRoot, FirstMetAgain, OnCycle, Leads;
    EmptyInv(g);
    var done := FindFromCorrect(g, map[], [], roots);
    if FindCycle(g, roots).Some? {
      var x := FindCycle(g, roots).value;
      var r :| FirstRoot(g, roots, r) && Closes(g, r, x);
      ClosesIs(g, r, x);
    }
  }

  /** That leaves no choice. */
  lemma FirstIsUnique(g: Graph, roots: seq<nat>, r: nat, x: nat, r': nat, x': nat)
    requires FirstRoot(g, roots, r) && FirstMetAgain(g, r, x) && FirstRoot(g, roots, r') && FirstMetAgain(g, r', x')
    ensures r == r' && x == x'
  {
    hide FirstRoot;
    OneFirst(g, roots, r, r');
    var p :| FirstTrail(g, p, x) && p[0] == r;
    var q :| FirstTrail(g, q, x') && q[0] == r;
    if |p| <= |q| { SameTrail(g, p, x, q, x'); } else { SameTrail(g, q, x', p, x); }
  }

  lemma OneFirst(g: Graph, roots: seq<nat>, r: nat, r': nat)
    requires FirstRoot(g, roots, r) && FirstRoot(g, roots, r')
    ensures r == r'
  {
    hide Leads;
    var i :| 0 <= i < |roots| && roots[i] == r && Leads(g, r) && forall k :: 0 <= k < i ==> !Leads(g, roots[k]);
    var j :| 0 <= j < |roots| && roots[j] == r' && Leads(g, r') && forall k :: 0 <= k < j ==> !Leads(g, roots[k]);
    assert i == j;
  }

  lemma {:induction false} TrailsAgree(g: Graph, p: seq<nat>, x: nat, q: seq<nat>, x': nat, i: nat)
    requires FirstTrail(g, p, x) && FirstTrail(g, q, x') && p[0] == q[0] && i < |p| <= |q|
    ensures p[i] == q[i]
  {
    hide FirstRoot;
    if i > 0 {
      TrailsAgree(g, p, x, q, x', i - 1);
      assert FirstLink(g, p[i - 1], p[i - 1 + 1]) && FirstLink(g, q[i - 1], q[i - 1 + 1]);
      OneFirst(g, g[p[i - 1]], p[i], q[i]);
    }
  }

  lemma SameTrail(g: Graph, p: seq<nat>, x: nat, q: seq<nat>, x': nat)
    requires FirstTrail(g, p, x) && FirstTrail(g, q, x') && p[0] == q[0] && |p| <= |q|
    ensures x == x'
  {
    hide FirstRoot;
    var n := |p| - 1;
    forall i | 0 <= i < |p|
      ensures p[i] == q[i]
    {
      TrailsAgree(g, p, x, q, x', i);
    }
    var k :| 0 <= k < |p| && p[k] == x;
    if |q| > |p| {
      assert FirstLink(g, q[n], q[n + 1]);
      OneFirst(g, g[p[n]], x, q[n + 1]);
    } else {
      OneFirst(g, g[p[n]], x, x');
    }
  }

  /** An acyclic graph can be listed with every link leading back. */
  lemma AcyclicHasOrder(g: Graph, nodes: seq<nat>) returns (done: seq<nat>)
    requires Acyclic(g) && forall x :: x in nodes <==> x in g
    ensures FinishOrder(g, done) && forall x :: x in done <==> x in g
  {
    EmptyInv(g);
    done := FindFromCorrect(g, map[], [], nodes);
    assert forall i :: 0 <= i < |done| ==> done[i] in g;
  }

  /** A graph can be listed with every link leading back only if it is acyclic. */
  lemma OrderIsAcyclic(g: Graph, done: seq<nat>)
    requires FinishOrder(g, done) && forall x <- g :: x in done
    ensures Acyclic(g)
  {
    forall x
      ensures !OnCycle(g, x)
    {
      if OnCycle(g, x) {
        var p :| PathFromTo(g, p, x, x) && |p| >= 2;
        NoCycleInOrder(g, done, x);
      }
    }
  }

  // ------------------------------------- checking only what a changeset touched

  lemma EdgeAt(g: Graph, p: seq<nat>, i: nat)
    requires Path(g, p) && i < |p| - 1
    ensures Edge(g, p[i], p[i + 1])
  {
  }

  lemma PathInside(g: Graph, p: seq<nat>, i: nat)
    requires Path(g, p) && i < |p|
    ensures p[i] in g
  {
    if i > 0 { EdgeAt(g, p, i - 1); }
  }

  lemma RotateCycle(g: Graph, p: seq<nat>, x: nat, j: nat)
    requires PathFromTo(g, p, x, x) && |p| >= 2 && j < |p|
    ensures OnCycle(g, p[j])
  {
    hide Edge;
    var q, rest := p[j..] + p[1..j + 1], |p| - 1 - j;
    forall i | 0 <= i < |q| - 1
      ensures Edge(g, q[i], q[i + 1])
    {
      if i < rest {
        assert q[i] == p[j + i] && q[i + 1] == p[j + i + 1];
        EdgeAt(g, p, j + i);
      } else {
        assert q[i] == p[i - rest] && q[i + 1] == p[i - rest + 1];
        EdgeAt(g, p, i - rest);
      }
    }
    PathInside(g, p, j);
    assert q[0] == p[j] && q[|q| - 1] == p[j];
    assert PathFromTo(g, q, p[j], p[j]) && |q| >= 2;
  }

  /** A cycle through a touched node is reachable from it; any other one was there before. */
  lemma CycleWasThere(before: Graph, after: Graph, touched: seq<nat>, p: seq<nat>, x: nat)
    requires PathFromTo(after, p, x, x) && |p| >= 2
    requires forall y :: y in after && y !in touched ==> y in before && before[y] == after[y]
    ensures OnCycle(before, x) || exists r, y :: r in touched && Reaches(after, r, y) && OnCycle(after, y)
  {
    if j :| 0 <= j < |p| && p[j] in touched {
      RotateCycle(after, p, x, j);
      PathInside(after, p, j);
      assert PathFromTo(after, [p[j]], p[j], p[j]);
      assert Reaches(after, p[j], p[j]);
    } else {
      forall i | 0 <= i < |p| - 1
        ensures Edge(before, p[i], p[i + 1])
      {
        assert Edge(after, p[i], p[i + 1]);
      }
      assert PathFromTo(before, p, x, x);
    }
  }

  /**
   If only the links of `touched` nodes changed and no cycle is reachable from
   them, an acyclic graph stays acyclic as a whole.
   */
  lemma TouchedSuffices(before: Graph, after: Graph, touched: seq<nat>)
    requires Acyclic(before)
    requires forall x :: x in after && x !in touched ==> x in before && before[x] == after[x]
    requires forall r, x :: r in touched && Reaches(after, r, x) ==> !OnCycle(after, x)
    ensures Acyclic(after)
  {
    forall x
      ensures !OnCycle(after, x)
    {
      if OnCycle(after, x) {
        var p :| PathFromTo(after, p, x, x) && |p| >= 2;
        CycleWasThere(before, after, touched, p, x);
      }
    }
  }

  // ------------------------------------------------------------ the loop itself

  /** One turn of the search, as the search itself unfolds. */
  lemma DfsTurn(g: Graph, color: map<nat, nat>, stack: seq<Frame>)
    requires stack != [] && StackOk(g, stack)
    ensures var t := Step(g, color, stack);
            if t.Found? then Dfs(g, color, stack) == (Some(t.node), color)
            else
              && StackOk(g, t.stack) && Dfs(g, color, stack) == Dfs(g, t.color, t.stack)
              && (|White(g, t.color)| < |White(g, color)| || (|White(g, t.color)| == |White(g, color)| && Work(g, t.stack) < Work(g, stack)))
  {
    hide Step, White, Work, StackOk;
    if Step(g, color, stack).Go? { StepDecreases(g, color, stack); }
  }

  /** The loop from one root, with its stack and colours. */
  method RunDfs(g: Graph, color0: map<nat, nat>, root: nat) returns (found: Option<nat>, color: map<nat, nat>)
    requires root in g
    ensures (found, color) == Dfs(g, color0, [Frame(root, 0)])
  {
    hide Dfs, White, Work;
    color := color0;
    var stack := [Frame(root, 0)];
    while stack != []
      invariant StackOk(g, stack) && Dfs(g, color, stack) == Dfs(g, color0, [Frame(root, 0)])
      decreases |White(g, color)|, Work(g, stack)
    {
      DfsTurn(g, color, stack);
      var top := stack[|stack| - 1];
      var below := stack[..|stack| - 1];
      if top.next < |g[top.node]| {
        var next := g[top.node][top.next];
        stack := below + [Frame(top.node, top.next + 1)];
        if next in color {
          if color[next] == ON_PATH { return Some(next), color; }
        } else if next in g {
          color := color[next := ON_PATH];
          stack := stack + [Frame(next, 0)];
        }
      } else {
        color := color[top.node := DONE];
        stack := below;
      }
    }
    DfsDone(g, color);
    return None, color;
  }

  lemma DfsDone(g: Graph, color: map<nat, nat>)
    ensures Dfs(g, color, []) == (None, color)
  {
  }

  /** The iterative search with its explicit stack and colour map. */
  method RunFindCycle(g: Graph, roots: seq<nat>) returns (found: Option<nat>)
    ensures found == FindCycle(g, roots)
  {
    hide Dfs;
    var color: map<nat, nat> := map[];
    for i := 0 to |roots|
      invariant FindFrom(g, color, roots[i..]) == FindCycle(g, roots)
    {
      var root := roots[i];
      assert roots[i..][1..] == roots[i + 1..];
      if root in color || root !in g { continue; }
      found, color := RunDfs(g, color[root := ON_PATH], root);
      if found.Some? { return; }
    }
    return None;
  }
}
