/**
 A file's hunks applied strictly: exact position, exact context, exact count.
 A result is accepted exactly when the hunks are an alignment of the old lines
 with the new text, cut into ordered pieces.
 */
module PatchHunks {
  import opened Prelude
  import opened Bytes

  const NEWLINE: byte := 10

  /** `op` is ' ' for context, '+' for an added and '-' for a removed line. */
  datatype HunkLine = HunkLine(op: char, text: Text, newline: bool)

  /** `oldStart` counts from 1; with `oldCount` 0 it names the line to insert after. */
  datatype Hunk = Hunk(oldStart: nat, oldCount: nat, lines: seq<HunkLine>)

  datatype Fault = PositionZero | Backwards | BeyondFile | ContextMismatch | UnknownOp | CountMismatch

  // ------------------------------------------------------------------ elements

  /** The place of the first newline, or the length. */
  function LineEnd(s: Text): (k: nat)
    ensures k <= |s| && NEWLINE !in s[..k] && (k < |s| ==> s[k] == NEWLINE)
  {
    if s == [] then 0
    else if s[0] == NEWLINE then 0
    else
      var k := LineEnd(s[1..]);
      assert s[..1 + k] == [s[0]] + s[1..][..k];
      1 + k
  }

  /** The lines of a text, each with its newline; the last may have none. */
  function ToElements(s: Text): seq<Text>
    decreases |s|
  {
    if s == [] then []
    else if LineEnd(s) == |s| then [s]
    else [s[..LineEnd(s) + 1]] + ToElements(s[LineEnd(s) + 1..])
  }

  function Concat(es: seq<Text>): Text {
    if es == [] then [] else es[0] + Concat(es[1..])
  }

  predicate Terminated(e: Text) {
    e != [] && e[|e| - 1] == NEWLINE
  }

  predicate IsLine(e: Text) {
    e != [] && NEWLINE !in e[..|e| - 1]
  }

  /** Lines, all terminated but perhaps the last. */
  predicate IsLines(es: seq<Text>) {
    && (forall i :: 0 <= i < |es| ==> IsLine(es[i]))
    && (forall i :: 0 <= i < |es| - 1 ==> Terminated(es[i]))
  }

  /** Splitting a text loses nothing. */
  lemma {:induction false} ConcatOfElements(s: Text)
    ensures Concat(ToElements(s)) == s
    decreases |s|
  {
    if s != [] {
      var k := LineEnd(s);
      if k == |s| {
        assert Concat([s]) == s + Concat([]);
      } else {
        ConcatOfElements(s[k + 1..]);
        var es := ToElements(s[k + 1..]);
        assert s == s[..k + 1] + s[k + 1..];
        assert ([s[..k + 1]] + es)[1..] == es;
      }
    }
  }

  /** Splitting gives lines, all terminated but perhaps the last. */
  lemma {:induction false} ElementsAreLines(s: Text)
    ensures IsLines(ToElements(s))
    decreases |s|
  {
    if s != [] {
      var k := LineEnd(s);
      if k == |s| {
        assert forall i :: 0 <= i < |s| - 1 ==> s[..|s| - 1][i] == s[..k][i];
        assert IsLine(s);
      } else {
        var first, es := s[..k + 1], ToElements(s[k + 1..]);
        ElementsAreLines(s[k + 1..]);
        assert first[..k] == s[..k];
        assert IsLine(first) && Terminated(first);
        LinesLonger(first, es);
      }
    }
  }

  lemma LinesLonger(first: Text, es: seq<Text>)
    requires IsLine(first) && Terminated(first) && IsLines(es)
    ensures IsLines([first] + es)
  {
    hide IsLine, Terminated;
    var all := [first] + es;
    assert forall i :: 0 <= i < |es| ==> all[i + 1] == es[i];
  }

  lemma LineEndOfLine(e: Text, rest: Text)
    requires IsLine(e) && (Terminated(e) || rest == [])
    ensures LineEnd(e + rest) == if Terminated(e) then |e| - 1 else |e|
  {
    var s, n, k := e + rest, |e| - 1, LineEnd(e + rest);
    assert forall i :: 0 <= i < n ==> s[i] == e[..n][i];
    assert s[n] == e[n];
    assert n < k ==> s[..k][n] == s[n];
  }

  /** Lines put together split into themselves. */
  lemma {:induction false} ElementsOfLines(es: seq<Text>)
    requires IsLines(es)
    ensures ToElements(Concat(es)) == es
  {
    if es != [] {
      var rest := Concat(es[1..]);
      ElementsOfLines(es[1..]);
      if |es| == 1 { assert es[1..] == []; }
      LineEndOfLine(es[0], rest);
      assert es == [es[0]] + es[1..];
      if !Terminated(es[0]) {
        assert es[1..] == [] && es[0] + rest == es[0];
      } else {
        assert (es[0] + rest)[..|es[0]|] == es[0] && (es[0] + rest)[|es[0]|..] == rest;
      }
    }
  }

  lemma ElementsStep(s: Text)
    ensures LineEnd(s) < |s| ==> ToElements(s) == [s[..LineEnd(s) + 1]] + ToElements(s[LineEnd(s) + 1..])
    ensures LineEnd(s) == |s| ==> ToElements(s) == if s == [] then [] else [s]
  {
    hide LineEnd;
  }

  method RunToElements(s: Text) returns (out: seq<Text>)
    ensures out == ToElements(s)
  {
    hide ToElements, LineEnd;
    out := [];
    var rest, pos := s, LineEnd(s);
    while pos < |rest|
      invariant pos == LineEnd(rest)
      invariant out + ToElements(rest) == ToElements(s)
      decreases |rest|
    {
      ElementsStep(rest);
      out := out + [rest[..pos + 1]];
      rest := rest[pos + 1..];
      pos := LineEnd(rest);
    }
    ElementsStep(rest);
    if rest != [] {
      out := out + [rest];
    }
  }

  function LineElement(l: HunkLine): Text {
    if l.newline then l.text + [NEWLINE] else l.text
  }

  // ------------------------------------------------------------------ applying

  datatype Progress = Progress(cursor: nat, out: seq<Text>)

  function TakeLine(was: seq<Text>, l: HunkLine, at: Progress): (r: Result<Progress, Fault>)
    ensures r.Ok? && at.cursor <= |was| ==> at.cursor <= r.value.cursor <= |was|
  {
    if l.op == ' ' || l.op == '-' then
      if !(at.cursor < |was| && was[at.cursor] == LineElement(l)) then Err(ContextMismatch)
      else Ok(Progress(at.cursor + 1, if l.op == ' ' then at.out + [LineElement(l)] else at.out))
    else if l.op == '+' then Ok(Progress(at.cursor, at.out + [LineElement(l)]))
    else Err(UnknownOp)
  }

  function TakeLines(was: seq<Text>, lines: seq<HunkLine>, at: Progress): (r: Result<Progress, Fault>)
    ensures r.Ok? && at.cursor <= |was| ==> at.cursor <= r.value.cursor <= |was|
    decreases |lines|
  {
    if lines == [] then Ok(at)
    else
      match TakeLine(was, lines[0], at)
      case Err(e) => Err(e)
      case Ok(next) => TakeLines(was, lines[1..], next)
  }

  /** Where a hunk's old side begins, from 0; none for position 0 with a count. */
  function Start(h: Hunk): Option<nat> {
    if h.oldCount == 0 then Some(h.oldStart)
    else if h.oldStart == 0 then None
    else Some(h.oldStart - 1)
  }

  function TakeHunk(was: seq<Text>, h: Hunk, at: Progress): (r: Result<Progress, Fault>)
    ensures r.Ok? ==> at.cursor <= r.value.cursor <= |was|
  {
    match Start(h)
    case None => Err(PositionZero)
    case Some(start) =>
      if start < at.cursor then Err(Backwards)
      else if start > |was| then Err(BeyondFile)
      else
        match TakeLines(was, h.lines, Progress(start, at.out + was[at.cursor..start]))
        case Err(e) => Err(e)
        case Ok(next) => if next.cursor - start != h.oldCount then Err(CountMismatch) else Ok(next)
  }

  function TakeHunks(was: seq<Text>, hunks: seq<Hunk>, at: Progress): (r: Result<Progress, Fault>)
    requires at.cursor <= |was|
    ensures r.Ok? ==> at.cursor <= r.value.cursor <= |was|
    decreases |hunks|
  {
    if hunks == [] then Ok(at)
    else
      match TakeHunk(was, hunks[0], at)
      case Err(e) => Err(e)
      case Ok(next) => TakeHunks(was, hunks[1..], next)
  }

  function ApplyHunks(was: Text, hunks: seq<Hunk>): (r: Result<Text, Fault>) {
    var es := ToElements(was);
    match TakeHunks(es, hunks, Progress(0, []))
    case Err(e) => Err(e)
    case Ok(at) => Ok(Concat(at.out + es[at.cursor..]))
  }

  /** One hunk's lines, in the source's loop. */
  method RunLines(was: seq<Text>, lines: seq<HunkLine>, start: nat, before: seq<Text>)
    returns (r: Result<(seq<Text>, nat, nat), Fault>)
    requires start <= |was|
    ensures match TakeLines(was, lines, Progress(start, before))
            case Err(e) => r == Err(e)
            case Ok(at) => r == Ok((at.out, at.cursor, at.cursor - start))
  {
    var out, cursor: nat, consumed: nat := before, start, 0;
    for i := 0 to |lines|
      invariant consumed == cursor - start && start <= cursor <= |was|
      invariant TakeLines(was, lines[i..], Progress(cursor, out)) == TakeLines(was, lines, Progress(start, before))
    {
      var l := lines[i];
      assert lines[i..][1..] == lines[i + 1..];
      var elem := LineElement(l);
      if l.op == ' ' || l.op == '-' {
        if !(cursor < |was| && was[cursor] == elem) {
          return Err(ContextMismatch);
        }
        if l.op == ' ' {
          out := out + [elem];
        }
        cursor, consumed := cursor + 1, consumed + 1;
      } else if l.op == '+' {
        out := out + [elem];
      } else {
        return Err(UnknownOp);
      }
    }
    return Ok((out, cursor, consumed));
  }

  /** The source's loop over the hunks. */
  method RunApplyHunks(text: Text, hunks: seq<Hunk>) returns (r: Result<Text, Fault>)
    ensures r == ApplyHunks(text, hunks)
  {
    var was := RunToElements(text);
    var out: seq<Text>, cursor: nat := [], 0;
    for i := 0 to |hunks|
      invariant cursor <= |was|
      invariant TakeHunks(was, hunks[i..], Progress(cursor, out)) == TakeHunks(was, hunks, Progress(0, []))
    {
      var h := hunks[i];
      assert hunks[i..][1..] == hunks[i + 1..];
      var start := h.oldStart;
      if h.oldCount != 0 {
        if h.oldStart == 0 {
          return Err(PositionZero);
        }
        start := h.oldStart - 1;
      }
      if start < cursor {
        return Err(Backwards);
      }
      if start > |was| {
        return Err(BeyondFile);
      }
      var taken := RunLines(was, h.lines, start, out + was[cursor..start]);
      if taken.Err? {
        return Err(taken.error);
      }
      if taken.value.2 != h.oldCount {
        return Err(CountMismatch);
      }
      out, cursor := taken.value.0, taken.value.1;
    }
    return Ok(Concat(out + was[cursor..]));
  }

  // ---------------------------------------------------------------- alignments

  function OldSide(ls: seq<HunkLine>): seq<Text> {
    if ls == [] then []
    else (if ls[0].op == '+' then [] else [LineElement(ls[0])]) + OldSide(ls[1..])
  }

  function NewSide(ls: seq<HunkLine>): seq<Text> {
    if ls == [] then []
    else (if ls[0].op == '-' then [] else [LineElement(ls[0])]) + NewSide(ls[1..])
  }

  predicate KnownOps(ls: seq<HunkLine>) {
    forall i :: 0 <= i < |ls| ==> ls[i].op in {' ', '+', '-'}
  }

  predicate AllContext(ls: seq<HunkLine>) {
    forall i :: 0 <= i < |ls| ==> ls[i].op == ' '
  }

  datatype Range = Range(lo: nat, hi: nat)

  /** Ordered ranges of the alignment, from `from` on, with context only between and after them. */
  predicate Cut(al: seq<HunkLine>, cuts: seq<Range>, from: nat)
    decreases |cuts|
  {
    if cuts == [] then from <= |al| && AllContext(al[from..])
    else
      var c := cuts[0];
      && from <= c.lo <= c.hi <= |al|
      && AllContext(al[from..c.lo])
      && Cut(al, cuts[1..], c.hi)
  }

  /** The hunk that shows a range of the alignment, with its header. */
  function HunkAt(al: seq<HunkLine>, c: Range): Hunk
    requires c.lo <= c.hi <= |al|
  {
    var before, count := |OldSide(al[..c.lo])|, |OldSide(al[c.lo..c.hi])|;
    Hunk(if count == 0 then before else before + 1, count, al[c.lo..c.hi])
  }

  ghost predicate Shows(al: seq<HunkLine>, cuts: seq<Range>, hunks: seq<Hunk>) {
    |hunks| == |cuts| && forall i :: 0 <= i < |cuts| ==>
      cuts[i].lo <= cuts[i].hi <= |al| && hunks[i] == HunkAt(al, cuts[i])
  }

  /** `al` lines up the lines of `was` with the bytes of `now`, and the hunks are a cut of it. */
  ghost predicate Aligns(was: Text, now: Text, hunks: seq<Hunk>, al: seq<HunkLine>, cuts: seq<Range>) {
    && KnownOps(al) && OldSide(al) == ToElements(was) && Concat(NewSide(al)) == now
    && Cut(al, cuts, 0) && Shows(al, cuts, hunks)
  }

  ghost predicate IsDiff(was: Text, now: Text, hunks: seq<Hunk>) {
    exists al, cuts :: Aligns(was, now, hunks, al, cuts)
  }

  lemma {:induction false} OldSidesJoin(a: seq<HunkLine>, b: seq<HunkLine>)
    ensures OldSide(a + b) == OldSide(a) + OldSide(b)
  {
    hide LineElement;
    if a == [] {
      assert a + b == b;
    } else {
      assert (a + b)[1..] == a[1..] + b;
      OldSidesJoin(a[1..], b);
    }
  }

  lemma {:induction false} NewSidesJoin(a: seq<HunkLine>, b: seq<HunkLine>)
    ensures NewSide(a + b) == NewSide(a) + NewSide(b)
  {
    hide LineElement;
    if a == [] {
      assert a + b == b;
    } else {
      assert (a + b)[1..] == a[1..] + b;
      NewSidesJoin(a[1..], b);
    }
  }

  lemma SidesJoin(a: seq<HunkLine>, b: seq<HunkLine>)
    ensures OldSide(a + b) == OldSide(a) + OldSide(b) && NewSide(a + b) == NewSide(a) + NewSide(b)
  {
    OldSidesJoin(a, b);
    NewSidesJoin(a, b);
  }

  lemma {:induction false} ContextSides(ls: seq<HunkLine>)
    requires AllContext(ls)
    ensures OldSide(ls) == NewSide(ls)
  {
    if ls != [] { ContextSides(ls[1..]); }
  }

  // -------------------------------------------------- an alignment is accepted

  lemma SidesOfOne(l: HunkLine)
    ensures OldSide([l]) == if l.op == '+' then [] else [LineElement(l)]
    ensures NewSide([l]) == if l.op == '-' then [] else [LineElement(l)]
  {
    hide LineElement;
    assert [l][1..] == [];
    assert OldSide([l][1..]) == [] && NewSide([l][1..]) == [];
  }

  /** One line is taken if its old side stands at the cursor. */
  lemma LineIsTaken(was: seq<Text>, l: HunkLine, at: Progress)
    requires l.op in {' ', '+', '-'} && at.cursor <= |was|
    requires l.op != '+' ==> at.cursor < |was| && was[at.cursor] == LineElement(l)
    ensures TakeLine(was, l, at) == Ok(Progress(at.cursor + |OldSide([l])|, at.out + NewSide([l])))
  {
    SidesOfOne(l);
    hide OldSide, NewSide, LineElement;
    assert at.out + [] == at.out;
  }

  /** What stands from a place on, seen after its first part. */
  lemma SliceOn(was: seq<Text>, c: nat, a: seq<Text>, b: seq<Text>)
    requires c <= |was| && was[c..] == a + b
    ensures c + |a| <= |was| && was[c + |a|..] == b
    ensures a != [] ==> was[c] == a[0]
  {
    assert was[c + |a|..] == was[c..][|a|..];
    assert a != [] ==> was[c] == was[c..][0];
  }

  /** Lines are taken if their old side stands at the cursor. */
  lemma {:induction false} LinesAreTaken(was: seq<Text>, ls: seq<HunkLine>, at: Progress, post: seq<Text>)
    requires KnownOps(ls) && at.cursor <= |was| && was[at.cursor..] == OldSide(ls) + post
    ensures TakeLines(was, ls, at) == Ok(Progress(at.cursor + |OldSide(ls)|, at.out + NewSide(ls)))
  {
    hide TakeLine, LineElement, OldSide, NewSide;
    if ls == [] {
      NoSides();
      assert at.out + NewSide(ls) == at.out;
    } else {
      var l, rest := ls[0], ls[1..];
      assert ls == [l] + rest;
      SidesJoin([l], rest);
      SidesOfOne(l);
      assert OldSide(ls) + post == OldSide([l]) + (OldSide(rest) + post);
      SliceOn(was, at.cursor, OldSide([l]), OldSide(rest) + post);
      LineIsTaken(was, l, at);
      var next := Progress(at.cursor + |OldSide([l])|, at.out + NewSide([l]));
      LinesAreTaken(was, rest, next, post);
      assert next.out + NewSide(rest) == at.out + NewSide(ls);
    }
  }

  lemma NoSides()
    ensures OldSide([]) == [] && NewSide([]) == []
  {
  }

  lemma SidesSplit(al: seq<HunkLine>, i: nat, j: nat)
    requires i <= j <= |al|
    ensures OldSide(al[..j]) == OldSide(al[..i]) + OldSide(al[i..j])
    ensures NewSide(al[..j]) == NewSide(al[..i]) + NewSide(al[i..j])
  {
    SidesJoin(al[..i], al[i..j]);
    assert al[..j] == al[..i] + al[i..j];
  }

  lemma HunkIsTaken(was: seq<Text>, al: seq<HunkLine>, from: nat, c: Range)
    requires KnownOps(al) && OldSide(al) == was
    requires from <= c.lo <= c.hi <= |al| && AllContext(al[from..c.lo])
    ensures TakeHunk(was, HunkAt(al, c), Progress(|OldSide(al[..from])|, NewSide(al[..from])))
         == Ok(Progress(|OldSide(al[..c.hi])|, NewSide(al[..c.hi])))
  {
    hide OldSide, NewSide, TakeLines;
    SidesSplit(al, from, c.lo);
    SidesSplit(al, c.lo, c.hi);
    SidesSplit(al, c.hi, |al|);
    assert al[..|al|] == al;
    ContextSides(al[from..c.lo]);
    var o, g := |OldSide(al[..from])|, |OldSide(al[from..c.lo])|;
    assert was[o..o + g] == OldSide(al[from..c.lo]);
    assert was[o + g..] == OldSide(al[c.lo..c.hi]) + OldSide(al[c.hi..]);
    LinesAreTaken(was, al[c.lo..c.hi], Progress(o + g, NewSide(al[..c.lo])), OldSide(al[c.hi..]));
  }

  lemma {:induction false} HunksAreTaken(was: seq<Text>, al: seq<HunkLine>, cuts: seq<Range>, hunks: seq<Hunk>, from: nat)
    requires KnownOps(al) && OldSide(al) == was && from <= |al|
    requires Cut(al, cuts, from) && Shows(al, cuts, hunks)
    requires |OldSide(al[..from])| <= |was|
    ensures var r := TakeHunks(was, hunks, Progress(|OldSide(al[..from])|, NewSide(al[..from])));
            r.Ok? && r.value.out + was[r.value.cursor..] == NewSide(al)
    decreases |cuts|
  {
    hide KnownOps, HunkAt, TakeHunk, AllContext;
    if cuts == [] {
      assert al == al[..from] + al[from..];
      SidesJoin(al[..from], al[from..]);
      ContextSides(al[from..]);
      assert was[|OldSide(al[..from])|..] == OldSide(al[from..]);
    } else {
      HunkIsTaken(was, al, from, cuts[0]);
      HunksAreTaken(was, al, cuts[1..], hunks[1..], cuts[0].hi);
    }
  }

  /** Every cut of every alignment rebuilds the new text. */
  lemma DiffApplies(was: Text, now: Text, hunks: seq<Hunk>)
    requires IsDiff(was, now, hunks)
    ensures ApplyHunks(was, hunks) == Ok(now)
  {
    hide Cut, Shows;
    var al: seq<HunkLine>, cuts: seq<Range> :| Aligns(was, now, hunks, al, cuts);
    assert al[..0] == [];
    HunksAreTaken(ToElements(was), al, cuts, hunks, 0);
  }

  // ------------------------------------------------ what is accepted is aligned

  /** An element as a context line. */
  function Context(e: Text): (l: HunkLine)
    ensures LineElement(l) == e && l.op == ' '
  {
    if Terminated(e) then HunkLine(' ', e[..|e| - 1], true) else HunkLine(' ', e, false)
  }

  function Contexts(es: seq<Text>): (ls: seq<HunkLine>)
    ensures |ls| == |es| && AllContext(ls) && OldSide(ls) == es && NewSide(ls) == es
  {
    if es == [] then [] else [Context(es[0])] + Contexts(es[1..])
  }

  lemma TakenLine(was: seq<Text>, l: HunkLine, at: Progress)
    requires TakeLine(was, l, at).Ok? && at.cursor <= |was|
    ensures l.op in {' ', '+', '-'}
    ensures var next := TakeLine(was, l, at).value;
            next.out == at.out + NewSide([l]) && was[at.cursor..next.cursor] == OldSide([l])
  {
    SidesOfOne(l);
    hide OldSide, NewSide;
    if l.op != '+' { assert was[at.cursor..at.cursor + 1] == [was[at.cursor]]; }
    assert at.out + [] == at.out;
  }

  lemma {:induction false} TakenLines(was: seq<Text>, ls: seq<HunkLine>, at: Progress)
    requires TakeLines(was, ls, at).Ok? && at.cursor <= |was|
    ensures KnownOps(ls)
    ensures var next := TakeLines(was, ls, at).value;
            next.out == at.out + NewSide(ls) && was[at.cursor..next.cursor] == OldSide(ls)
  {
    hide TakeLine;
    if ls != [] {
      var l, rest, mid := ls[0], ls[1..], TakeLine(was, ls[0], at).value;
      TakenLine(was, l, at);
      TakenLines(was, rest, mid);
      var next := TakeLines(was, ls, at).value;
      SidesJoin([l], rest);
      assert ls == [l] + rest;
      hide OldSide, NewSide, TakeLines;
      assert was[at.cursor..next.cursor] == was[at.cursor..mid.cursor] + was[mid.cursor..next.cursor];
      assert mid.out + NewSide(rest) == at.out + (NewSide([l]) + NewSide(rest));
    } else {
      assert at.out + NewSide(ls) == at.out;
    }
  }

  /** `al` lines up what has been read with what has been written, ending in the last hunk. */
  ghost predicate Tracks(was: seq<Text>, al: seq<HunkLine>, cuts: seq<Range>, hunks: seq<Hunk>, at: Progress) {
    && KnownOps(al) && at.cursor <= |was| && OldSide(al) == was[..at.cursor] && NewSide(al) == at.out
    && Cut(al, cuts, 0) && Shows(al, cuts, hunks)
  }

  /** Appending a gap and one more range keeps a cut a cut. */
  lemma {:induction false} CutExtends(al: seq<HunkLine>, cuts: seq<Range>, from: nat, gap: seq<HunkLine>, mid: seq<HunkLine>)
    requires Cut(al, cuts, from) && AllContext(gap)
    ensures Cut(al + gap + mid, cuts + [Range(|al| + |gap|, |al| + |gap| + |mid|)], from)
    decreases |cuts|
  {
    var al', last := al + gap + mid, Range(|al| + |gap|, |al| + |gap| + |mid|);
    if cuts == [] {
      assert al'[from..last.lo] == al[from..] + gap;
      assert ([] + [last])[1..] == [] && al'[last.hi..] == [];
    } else {
      CutExtends(al, cuts[1..], cuts[0].hi, gap, mid);
      assert (cuts + [last])[1..] == cuts[1..] + [last];
      assert al'[from..cuts[0].lo] == al[from..cuts[0].lo];
    }
  }

  lemma {:induction false} CutWithin(al: seq<HunkLine>, cuts: seq<Range>, from: nat, tail: seq<HunkLine>)
    requires Cut(al, cuts, from) && AllContext(tail)
    ensures Cut(al + tail, cuts, from)
    decreases |cuts|
  {
    if cuts == [] {
      assert (al + tail)[from..] == al[from..] + tail;
    } else {
      CutWithin(al, cuts[1..], cuts[0].hi, tail);
      assert (al + tail)[from..cuts[0].lo] == al[from..cuts[0].lo];
    }
  }

  lemma ShowsLonger(al: seq<HunkLine>, cuts: seq<Range>, hunks: seq<Hunk>, tail: seq<HunkLine>)
    requires Shows(al, cuts, hunks)
    ensures Shows(al + tail, cuts, hunks)
  {
    forall i | 0 <= i < |cuts|
      ensures hunks[i] == HunkAt(al + tail, cuts[i])
    {
      var c := cuts[i];
      assert (al + tail)[..c.lo] == al[..c.lo] && (al + tail)[c.lo..c.hi] == al[c.lo..c.hi];
    }
  }

  lemma ShowsOneMore(al: seq<HunkLine>, cuts: seq<Range>, hunks: seq<Hunk>, more: seq<HunkLine>, c: Range, h: Hunk)
    requires Shows(al, cuts, hunks) && c.lo <= c.hi <= |al + more| && h == HunkAt(al + more, c)
    ensures Shows(al + more, cuts + [c], hunks + [h])
  {
    hide HunkAt;
    ShowsLonger(al, cuts, hunks, more);
  }

  lemma TrackHunk(was: seq<Text>, al: seq<HunkLine>, cuts: seq<Range>, hunks: seq<Hunk>, at: Progress, h: Hunk)
    returns (al': seq<HunkLine>, cuts': seq<Range>)
    requires Tracks(was, al, cuts, hunks, at) && TakeHunk(was, h, at).Ok?
    ensures Tracks(was, al', cuts', hunks + [h], TakeHunk(was, h, at).value)
  {
    hide Cut, OldSide, NewSide, TakeLines, Shows, Contexts;
    var start, next := Start(h).value, TakeHunk(was, h, at).value;
    var gap := Contexts(was[at.cursor..start]);
    var c := Range(|al| + |gap|, |al| + |gap| + |h.lines|);
    al', cuts' := al + gap + h.lines, cuts + [c];
    TakenLines(was, h.lines, Progress(start, at.out + was[at.cursor..start]));
    SidesJoin(al, gap);
    SidesJoin(al + gap, h.lines);
    CutExtends(al, cuts, 0, gap, h.lines);
    assert was[..start] == was[..at.cursor] + was[at.cursor..start];
    assert was[..next.cursor] == was[..start] + was[start..next.cursor];
    assert HunkAt(al', c) == h by {
      assert al'[..c.lo] == al + gap && al'[c.lo..c.hi] == h.lines;
    }
    assert al' == al + (gap + h.lines);
    ShowsOneMore(al, cuts, hunks, gap + h.lines, c, h);
  }

  lemma {:induction false} TrackHunks(
    was: seq<Text>, al: seq<HunkLine>, cuts: seq<Range>, done: seq<Hunk>, at: Progress, hunks: seq<Hunk>)
    returns (al': seq<HunkLine>, cuts': seq<Range>)
    requires Tracks(was, al, cuts, done, at) && TakeHunks(was, hunks, at).Ok?
    ensures Tracks(was, al', cuts', done + hunks, TakeHunks(was, hunks, at).value)
    decreases |hunks|
  {
    hide Tracks, TakeHunk;
    if hunks == [] {
      al', cuts' := al, cuts;
      assert done + hunks == done;
    } else {
      al', cuts' := TrackHunk(was, al, cuts, done, at, hunks[0]);
      al', cuts' := TrackHunks(was, al', cuts', done + [hunks[0]], TakeHunk(was, hunks[0], at).value, hunks[1..]);
      assert done + [hunks[0]] + hunks[1..] == done + hunks;
    }
  }

  lemma TracksNothing(was: seq<Text>)
    ensures Tracks(was, [], [], [], Progress(0, []))
  {
  }

  lemma AppliedIsDiff(was: Text, hunks: seq<Hunk>)
    requires ApplyHunks(was, hunks).Ok?
    ensures IsDiff(was, ApplyHunks(was, hunks).value, hunks)
  {
    hide Cut, Shows, HunkAt, OldSide, NewSide, Concat, TakeHunks, ToElements;
    var es := ToElements(was);
    var at := TakeHunks(es, hunks, Progress(0, [])).value;
    TracksNothing(es);
    var al, cuts := TrackHunks(es, [], [], [], Progress(0, []), hunks);
    assert [] + hunks == hunks;
    var tail := Contexts(es[at.cursor..]);
    SidesJoin(al, tail);
    CutWithin(al, cuts, 0, tail);
    ShowsLonger(al, cuts, hunks, tail);
    assert es[..at.cursor] + es[at.cursor..] == es;
    assert Aligns(was, ApplyHunks(was, hunks).value, hunks, al + tail, cuts);
  }

  /** Hunks turn `was` into `now` exactly when they are a cut alignment of the two. */
  lemma AppliesIffDiff(was: Text, now: Text, hunks: seq<Hunk>)
    ensures ApplyHunks(was, hunks) == Ok(now) <==> IsDiff(was, now, hunks)
  {
    if IsDiff(was, now, hunks) { DiffApplies(was, now, hunks); }
    if ApplyHunks(was, hunks) == Ok(now) { AppliedIsDiff(was, hunks); }
  }

  // --------------------------------------------------------------- consequences

  lemma {:induction false} CutOrdered(al: seq<HunkLine>, cuts: seq<Range>, from: nat)
    requires Cut(al, cuts, from)
    ensures forall i :: 0 <= i < |cuts| ==> from <= cuts[i].lo <= cuts[i].hi <= |al|
    ensures forall i, j :: 0 <= i < j < |cuts| ==> cuts[i].hi <= cuts[j].lo
    decreases |cuts|
  {
    if cuts != [] {
      CutOrdered(al, cuts[1..], cuts[0].hi);
      assert forall i :: 1 <= i < |cuts| ==> cuts[i] == cuts[1..][i - 1];
    }
  }

  /** In an accepted file each hunk's old side stands at its named position, with its named count. */
  lemma HunkStands(was: Text, hunks: seq<Hunk>, i: nat)
    requires ApplyHunks(was, hunks).Ok? && i < |hunks|
    ensures Start(hunks[i]).Some?
    ensures var es, at, n := ToElements(was), Start(hunks[i]).value, hunks[i].oldCount;
            at + n <= |es| && es[at..at + n] == OldSide(hunks[i].lines)
  {
    hide OldSide, NewSide, TakeHunks, ToElements;
    AppliedIsDiff(was, hunks);
    var al: seq<HunkLine>, cuts: seq<Range> :| Aligns(was, ApplyHunks(was, hunks).value, hunks, al, cuts);
    CutOrdered(al, cuts, 0);
    var c := cuts[i];
    SidesSplit(al, c.lo, c.hi);
    SidesSplit(al, c.hi, |al|);
    assert al[..|al|] == al;
  }

  /** No hunk begins before the one before it ended. */
  lemma HunksAreOrdered(was: Text, hunks: seq<Hunk>, i: nat, j: nat)
    requires ApplyHunks(was, hunks).Ok? && i < j < |hunks|
    ensures Start(hunks[i]).Some? && Start(hunks[j]).Some?
    ensures Start(hunks[i]).value + hunks[i].oldCount <= Start(hunks[j]).value
  {
    hide OldSide, NewSide, TakeHunks, ToElements;
    AppliedIsDiff(was, hunks);
    var al: seq<HunkLine>, cuts: seq<Range> :| Aligns(was, ApplyHunks(was, hunks).value, hunks, al, cuts);
    CutOrdered(al, cuts, 0);
    SidesSplit(al, cuts[i].lo, cuts[i].hi);
    SidesSplit(al, cuts[i].hi, cuts[j].lo);
  }

  // ---------------------------------------------------------- what a fault means

  /** Where a hunk's old side begins, from 0. */
  function Begin(h: Hunk): int {
    if h.oldCount == 0 then h.oldStart else h.oldStart - 1
  }

  /** Line `j` of lines that begin at `from` has an old side that does not stand in its place. */
  ghost predicate Mismatch(was: seq<Text>, ls: seq<HunkLine>, from: nat, j: int) {
    && 0 <= j < |ls| && ls[j].op in {' ', '-'}
    && var at := from + |OldSide(ls[..j])|; at >= |was| || was[at] != LineElement(ls[j])
  }

  ghost predicate IsTrueOfLines(was: seq<Text>, ls: seq<HunkLine>, from: nat, e: Fault) {
    match e
    case ContextMismatch => exists j :: Mismatch(was, ls, from, j)
    case UnknownOp => exists j :: 0 <= j < |ls| && ls[j].op !in {' ', '+', '-'}
    case _ => false
  }

  /** What a refused hunk says of itself holds, where the hunks before it end at `cursor`. */
  ghost predicate IsTrueOfHunk(was: seq<Text>, h: Hunk, cursor: nat, e: Fault) {
    match e
    case PositionZero => h.oldCount > 0 && h.oldStart == 0
    case Backwards => Begin(h) < cursor
    case BeyondFile => Begin(h) > |was|
    case CountMismatch => h.oldCount != |OldSide(h.lines)|
    case _ => Begin(h) >= 0 && IsTrueOfLines(was, h.lines, Begin(h), e)
  }

  lemma {:induction false} LinesFault(was: seq<Text>, ls: seq<HunkLine>, at: Progress)
    ensures var r := TakeLines(was, ls, at);
            if r.Err? then IsTrueOfLines(was, ls, at.cursor, r.error) else r.value.cursor == at.cursor + |OldSide(ls)|
    decreases |ls|
  {
    hide LineElement;
    if ls != [] {
      var l, rest := ls[0], ls[1..];
      assert ls[..0] == [] && |OldSide([])| == 0;
      var r := TakeLine(was, l, at);
      if r.Ok? {
        LinesFault(was, rest, r.value);
        forall j | Mismatch(was, rest, r.value.cursor, j)
          ensures Mismatch(was, ls, at.cursor, j + 1)
        {
          assert ls[..j + 1][1..] == rest[..j] && ls[..j + 1][0] == l;
        }
        assert forall j :: 0 <= j < |rest| ==> rest[j] == ls[j + 1];
      } else if l.op in {' ', '-'} {
        assert Mismatch(was, ls, at.cursor, 0);
      }
    }
  }

  lemma HunkFault(was: seq<Text>, h: Hunk, at: Progress)
    requires at.cursor <= |was|
    ensures var r := TakeHunk(was, h, at);
            if r.Err? then IsTrueOfHunk(was, h, at.cursor, r.error) else r.value.cursor == Begin(h) + h.oldCount
  {
    hide TakeLines, OldSide, IsTrueOfLines;
    var start := Start(h);
    if start.Some? && at.cursor <= start.value <= |was| {
      var from := Progress(start.value, at.out + was[at.cursor..start.value]);
      LinesFault(was, h.lines, from);
      LinesFaultKinds(was, h.lines, from);
    }
  }

  lemma LinesFaultKinds(was: seq<Text>, ls: seq<HunkLine>, at: Progress)
    ensures var r := TakeLines(was, ls, at); r.Err? ==> r.error.ContextMismatch? || r.error.UnknownOp?
  {
    LinesFault(was, ls, at);
  }

  /** Where the first `k` hunks end. */
  function EndOf(hunks: seq<Hunk>, k: int): int
    requires 0 <= k <= |hunks|
  {
    if k == 0 then 0 else Begin(hunks[k - 1]) + hunks[k - 1].oldCount
  }

  /** The first `k` hunks apply, and of the next the fault is true. */
  ghost predicate FailsAt(was: Text, hunks: seq<Hunk>, k: int, e: Fault) {
    && 0 <= k < |hunks| && ApplyHunks(was, hunks[..k]).Ok?
    && EndOf(hunks, k) >= 0 && IsTrueOfHunk(ToElements(was), hunks[k], EndOf(hunks, k), e)
  }

  lemma {:induction false} HunksFault(was: seq<Text>, hunks: seq<Hunk>)
    ensures var r := TakeHunks(was, hunks, Progress(0, []));
            if r.Ok? then r.value.cursor == EndOf(hunks, |hunks|)
            else exists k :: 0 <= k < |hunks| && TakeHunks(was, hunks[..k], Progress(0, [])).Ok?
                             && EndOf(hunks, k) >= 0 && IsTrueOfHunk(was, hunks[k], EndOf(hunks, k), r.error)
  {
    hide TakeHunk, IsTrueOfHunk;
    if hunks != [] {
      var n := |hunks| - 1;
      var front := hunks[..n];
      HunksFault(was, front);
      assert hunks == front + [hunks[n]];
      HunksJoin(was, front, [hunks[n]], Progress(0, []));
      var r := TakeHunks(was, front, Progress(0, []));
      if r.Ok? {
        OneHunk(was, hunks[n], r.value);
        HunkFault(was, hunks[n], r.value);
        assert hunks[..n] == front && EndOf(hunks, n) == EndOf(front, n);
      } else {
        var k :| 0 <= k < n && TakeHunks(was, front[..k], Progress(0, [])).Ok?
                 && EndOf(front, k) >= 0 && IsTrueOfHunk(was, front[k], EndOf(front, k), r.error);
        assert hunks[..k] == front[..k] && EndOf(hunks, k) == EndOf(front, k);
      }
    }
  }

  lemma OneHunk(was: seq<Text>, h: Hunk, at: Progress)
    requires at.cursor <= |was|
    ensures TakeHunks(was, [h], at) == TakeHunk(was, h, at)
  {
    hide TakeHunk;
    assert [h][1..] == [];
  }

  lemma {:induction false} HunksJoin(was: seq<Text>, a: seq<Hunk>, b: seq<Hunk>, at: Progress)
    requires at.cursor <= |was|
    ensures var r := TakeHunks(was, a, at);
            TakeHunks(was, a + b, at) == if r.Err? then r else TakeHunks(was, b, r.value)
    decreases |a|
  {
    hide TakeHunk;
    if a == [] {
      assert a + b == b;
    } else {
      assert (a + b)[0] == a[0] && (a + b)[1..] == a[1..] + b;
      var r := TakeHunk(was, a[0], at);
      if r.Ok? { HunksJoin(was, a[1..], b, r.value); }
    }
  }

  /** Refused hunks are refused for the first that does not apply, and for a reason that holds of it. */
  lemma FaultIsTrue(was: Text, hunks: seq<Hunk>)
    ensures ApplyHunks(was, hunks).Err? ==> exists k :: FailsAt(was, hunks, k, ApplyHunks(was, hunks).error)
  {
    hide TakeHunks, IsTrueOfHunk;
    var es := ToElements(was);
    HunksFault(es, hunks);
    var r := TakeHunks(es, hunks, Progress(0, []));
    if r.Err? {
      var k :| 0 <= k < |hunks| && TakeHunks(es, hunks[..k], Progress(0, [])).Ok?
               && EndOf(hunks, k) >= 0 && IsTrueOfHunk(es, hunks[k], EndOf(hunks, k), r.error);
      assert FailsAt(was, hunks, k, r.error);
    }
  }

  lemma WholeCut(al: seq<HunkLine>)
    ensures var c := Range(0, |al|); Cut(al, [c], 0) && Shows(al, [c], [HunkAt(al, c)])
  {
    var c := Range(0, |al|);
    assert al[c.hi..] == [] && [c][1..] == [];
  }

  function WholeAlignment(was: Text, now: Text): seq<HunkLine> {
    Marked('-', ToElements(was)) + Marked('+', ToElements(now))
  }

  /** The plainest differ: everything out, everything in, in one hunk. */
  function WholeDiff(was: Text, now: Text): seq<Hunk> {
    var al := WholeAlignment(was, now);
    [HunkAt(al, Range(0, |al|))]
  }

  /** Every two texts have a diff: an aligner can always answer. */
  lemma WholeDiffAligns(was: Text, now: Text)
    ensures IsDiff(was, now, WholeDiff(was, now))
  {
    hide Cut, Shows, HunkAt, OldSide, NewSide, ToElements, Concat, WholeAlignment, KnownOps;
    var al := WholeAlignment(was, now);
    WholeSides(was, now);
    ConcatOfElements(now);
    WholeCut(al);
    var c := Range(0, |al|);
    assert Aligns(was, now, [HunkAt(al, c)], al, [c]);
  }

  lemma WholeSides(was: Text, now: Text)
    ensures var al := WholeAlignment(was, now);
            KnownOps(al) && OldSide(al) == ToElements(was) && NewSide(al) == ToElements(now)
  {
    hide OldSide, NewSide, ToElements, Marked, Context;
    var gone, come := Marked('-', ToElements(was)), Marked('+', ToElements(now));
    SidesJoin(gone, come);
    MarkedSides('-', ToElements(was));
    MarkedSides('+', ToElements(now));
    assert ToElements(was) + [] == ToElements(was);
  }

  lemma {:induction false} ElementsWithin(s: Text)
    ensures |ToElements(s)| <= |s|
    ensures forall i, x :: 0 <= i < |ToElements(s)| && x in ToElements(s)[i] ==> x in s
    decreases |s|
  {
    hide LineEnd;
    if s != [] && LineEnd(s) < |s| {
      var rest, es := s[LineEnd(s) + 1..], ToElements(s);
      ElementsWithin(rest);
      ElementsStep(s);
      hide ToElements;
      forall i, x | 0 <= i < |es| && x in es[i]
        ensures x in s
      {
        if i > 0 { assert es[i] == ToElements(rest)[i - 1] && x in rest; }
      }
    }
  }

  function Marked(op: char, es: seq<Text>): (ls: seq<HunkLine>)
    requires op == '-' || op == '+'
    ensures |ls| == |es| && forall i :: 0 <= i < |ls| ==> ls[i] == Context(es[i]).(op := op)
  {
    if es == [] then [] else [Context(es[0]).(op := op)] + Marked(op, es[1..])
  }

  lemma {:induction false} MarkedSides(op: char, es: seq<Text>)
    requires op == '-' || op == '+'
    ensures OldSide(Marked(op, es)) == (if op == '+' then [] else es)
    ensures NewSide(Marked(op, es)) == (if op == '-' then [] else es)
  {
    hide OldSide, NewSide, LineElement;
    if es == [] {
      NoSides();
    } else {
      MarkedSides(op, es[1..]);
      MarkedOne(op, es[0]);
      SidesJoin([Context(es[0]).(op := op)], Marked(op, es[1..]));
      assert es == [es[0]] + es[1..];
    }
  }

  lemma MarkedOne(op: char, e: Text)
    requires op == '-' || op == '+'
    ensures var l := Context(e).(op := op);
            OldSide([l]) == (if op == '+' then [] else [e]) && NewSide([l]) == (if op == '-' then [] else [e])
  {
    SidesOfOne(Context(e).(op := op));
  }

  /** Unchanged text is shown by no hunks. */
  lemma NoHunks(was: Text)
    ensures IsDiff(was, was, [])
  {
    var al := Contexts(ToElements(was));
    ConcatOfElements(was);
    assert Aligns(was, was, [], al, []);
  }
}
