/**
 The patch as text: what the emitter prints and the tolerant reader reads back.
 Reading what was printed gives the same files exactly when no path printed in a
 header alone holds the separator that header is split at.
 */
module PatchText {
  import opened Prelude
  import opened Bytes
  import opened PatchHunks
  import opened PatchTree

  const CR: byte := 13
  const SPACE: byte := 32
  const COMMA: byte := 44
  const MINUS: byte := 45
  const PLUS: byte := 43

  // --------------------------------------------------------------------- words

  function DiffGit(): Text { Word("diff --git a/") }
  function NewFileMode(): Text { Word("new file mode") }
  function DeletedFileMode(): Text { Word("deleted file mode") }
  function RenameFrom(): Text { Word("rename from ") }
  function RenameTo(): Text { Word("rename to ") }
  function HunkMark(): Text { Word("@@ ") }
  function Similarity(): Text { Word("similarity index") }
  function OldName(): Text { Word("--- ") }
  function NewName(): Text { Word("+++ ") }
  function Mode(): Text { Word(" 100644") }
  function Percent(): Text { Word(" 100%") }
  function DevNull(): Text { Word("/dev/null") }
  function SideA(): Text { Word("a/") }
  function SideB(): Text { Word("b/") }
  function Hint(): Text { Word("\\ No newline at end of file") }

  /** The bytes the reader tells the words apart by. */
  lemma FirstBytes()
    ensures |DiffGit()| > 1 && DiffGit()[0] == 100 && DiffGit()[1] == 105
    ensures |NewFileMode()| > 0 && NewFileMode()[0] == 110
    ensures |DeletedFileMode()| > 1 && DeletedFileMode()[0] == 100 && DeletedFileMode()[1] == 101
    ensures |HunkMark()| > 0 && HunkMark()[0] == 64
    ensures |Hint()| > 0 && Hint()[0] == BACKSLASH
  {
  }

  lemma MoveBytes()
    ensures |RenameFrom()| > 7 && RenameFrom()[0] == 114 && RenameFrom()[7] == 102
    ensures |RenameTo()| > 7 && RenameTo()[0] == 114 && RenameTo()[7] == 116
    ensures |Similarity()| > 0 && Similarity()[0] == 115
    ensures |OldName()| > 0 && OldName()[0] == MINUS
    ensures |NewName()| > 0 && NewName()[0] == PLUS
  {
  }

  // --------------------------------------------------------------------- lines

  /** A line without its ending, "\n" or "\r\n". */
  function LineOf(e: Text): Text {
    if !Terminated(e) then e
    else
      var t := e[..|e| - 1];
      if t != [] && t[|t| - 1] == CR then t[..|t| - 1] else t
  }

  function Lines(s: Text): (ls: seq<Text>)
    ensures |ls| == |ToElements(s)| && forall i :: 0 <= i < |ls| ==> ls[i] == LineOf(ToElements(s)[i])
  {
    var es := ToElements(s);
    seq(|es|, i requires 0 <= i < |es| => LineOf(es[i]))
  }

  /** Text that a line can hold and give back. */
  predicate Plain(t: Text) {
    NEWLINE !in t && (t == [] || t[|t| - 1] != CR)
  }

  function Print(ls: seq<Text>): Text {
    if ls == [] then [] else ls[0] + [NEWLINE] + Print(ls[1..])
  }

  function Ended(ls: seq<Text>): (es: seq<Text>)
    ensures |es| == |ls| && forall i :: 0 <= i < |ls| ==> es[i] == ls[i] + [NEWLINE]
  {
    seq(|ls|, i requires 0 <= i < |ls| => ls[i] + [NEWLINE])
  }

  lemma {:induction false} PrintIsConcat(ls: seq<Text>)
    ensures Print(ls) == Concat(Ended(ls))
  {
    if ls != [] {
      PrintIsConcat(ls[1..]);
      assert Ended(ls)[1..] == Ended(ls[1..]);
    }
  }

  /** Printed lines are read back. */
  lemma LinesOfPrint(ls: seq<Text>)
    requires forall i :: 0 <= i < |ls| ==> Plain(ls[i])
    ensures Lines(Print(ls)) == ls
  {
    hide ToElements, Concat, Print, IsLine, Terminated, LineOf, Plain;
    var es := Ended(ls);
    PrintIsConcat(ls);
    forall i | 0 <= i < |es|
      ensures IsLine(es[i]) && Terminated(es[i]) && LineOf(es[i]) == ls[i]
    {
      PlainIsLine(ls[i]);
    }
    ElementsOfLines(es);
  }

  lemma PlainIsLine(t: Text)
    requires Plain(t)
    ensures var e := t + [NEWLINE]; IsLine(e) && Terminated(e) && LineOf(e) == t
  {
    var e := t + [NEWLINE];
    assert e[..|e| - 1] == t;
  }

  // ------------------------------------------------------------------- numbers

  predicate IsDigit(c: byte) {
    48 <= c <= 57
  }

  function Digits(s: Text): Option<nat> {
    if s == [] then Some(0)
    else
      var n := |s| - 1;
      match Digits(s[..n])
      case None => None
      case Some(v) => if IsDigit(s[n]) then Some(10 * v + (s[n] - 48)) else None
  }

  /** `str::parse::<usize>`: an optional plus, digits, nothing above 64 bits. */
  function ParseUsize(s: Text): Option<nat> {
    var ds := if s != [] && s[0] == PLUS then s[1..] else s;
    if ds == [] then None
    else
      match Digits(ds)
      case None => None
      case Some(v) => if v <= U64_MAX then Some(v) else None
  }

  function Decimal(n: nat): (s: Text)
    ensures s != [] && forall i :: 0 <= i < |s| ==> IsDigit(s[i])
  {
    if n < 10 then [48 + n] else Decimal(n / 10) + [48 + n % 10]
  }

  lemma {:induction false} DigitsOfDecimal(n: nat)
    ensures Digits(Decimal(n)) == Some(n)
  {
    var s := Decimal(n);
    if n < 10 {
      assert s[..0] == [];
      assert Digits(s[..0]) == Some(0);
    } else {
      DigitsOfDecimal(n / 10);
      assert s[..|s| - 1] == Decimal(n / 10);
    }
  }

  lemma ParseOfDecimal(n: nat)
    requires n <= U64_MAX
    ensures ParseUsize(Decimal(n)) == Some(n)
  {
    DigitsOfDecimal(n);
    assert IsDigit(Decimal(n)[0]);
  }

  // ------------------------------------------------------------------- reading

  function Strip(prefix: Text, line: Text): Option<Text> {
    if prefix <= line then Some(line[|prefix|..]) else None
  }

  /** The first place of `c`, or the length. */
  function IndexOf(s: Text, c: byte): (k: nat)
    ensures k <= |s| && c !in s[..k] && (k < |s| ==> s[k] == c)
  {
    if s == [] then 0
    else if s[0] == c then 0
    else
      var k := IndexOf(s[1..], c);
      assert s[..1 + k] == [s[0]] + s[1..][..k];
      1 + k
  }

  const SEP: Text := [SPACE, 98, SLASH]

  predicate SepAt(s: Text, j: nat) {
    j + 3 <= |s| && s[j] == SPACE && s[j + 1] == 98 && s[j + 2] == SLASH
  }

  /** The last place of " b/". */
  function LastSep(s: Text): (r: Option<nat>)
    ensures match r
            case None => forall j: nat :: !SepAt(s, j)
            case Some(k) => SepAt(s, k) && forall j: nat :: SepAt(s, j) ==> j <= k
  {
    if |s| < 3 then None
    else if SepAt(s, |s| - 3) then Some(|s| - 3)
    else
      var t := s[..|s| - 1];
      assert forall j: nat :: SepAt(s, j) ==> j + 3 <= |t|;
      assert forall j: nat :: SepAt(s, j) <==> SepAt(t, j);
      LastSep(t)
  }

  /** A file header after "diff --git a/": the two paths, split at the last " b/". */
  function Header(rest: Text): PatchFile {
    match LastSep(rest)
    case None => PatchFile([], [], false, false, false, [])
    case Some(k) => PatchFile(rest[..k], rest[k + 3..], false, false, false, [])
  }

  function OrZero(o: Option<nat>): nat {
    match o
    case None => 0
    case Some(n) => n
  }

  /** The old side of a hunk header; what cannot be read counts as 0. */
  function HunkOld(head: Text): (nat, nat) {
    var w := head[..IndexOf(head, SPACE)];
    if w == [] || w[0] != MINUS then (0, 0)
    else
      var range := w[1..];
      var k := IndexOf(range, COMMA);
      if k == |range| then (OrZero(ParseUsize(range)), 1)
      else (OrZero(ParseUsize(range[..k])), OrZero(ParseUsize(range[k + 1..])))
  }

  function LastUnended(hs: seq<Hunk>): seq<Hunk> {
    if hs == [] || hs[|hs| - 1].lines == [] then hs
    else
      var h := hs[|hs| - 1];
      var n := |h.lines| - 1;
      hs[..|hs| - 1] + [h.(lines := h.lines[..n] + [h.lines[n].(newline := false)])]
  }

  function PushLine(hs: seq<Hunk>, l: HunkLine): seq<Hunk>
    requires hs != []
  {
    var h := hs[|hs| - 1];
    hs[..|hs| - 1] + [h.(lines := h.lines + [l])]
  }

  /** One line inside a file. */
  function ReadInto(f: PatchFile, line: Text): PatchFile {
    if Strip(NewFileMode(), line).Some? then f.(added := true)
    else if Strip(DeletedFileMode(), line).Some? then f.(deleted := true)
    else if Strip(RenameFrom(), line).Some? then f.(renamed := true, oldPath := Strip(RenameFrom(), line).value)
    else if Strip(RenameTo(), line).Some? then f.(renamed := true, newPath := Strip(RenameTo(), line).value)
    else if Strip(HunkMark(), line).Some? then
      var (start, count) := HunkOld(Strip(HunkMark(), line).value);
      f.(hunks := f.hunks + [Hunk(start, count, [])])
    else if line != [] && line[0] == BACKSLASH then f.(hunks := LastUnended(f.hunks))
    else if f.hunks == [] && (Strip(Similarity(), line).Some? || Strip(OldName(), line).Some? || Strip(NewName(), line).Some?) then f
    else if f.hunks != [] && line != [] && line[0] in {SPACE, PLUS, MINUS} then
      f.(hunks := PushLine(f.hunks, HunkLine(line[0] as char, line[1..], true)))
    else f
  }

  function ReadLine(files: seq<PatchFile>, line: Text): seq<PatchFile> {
    if Strip(DiffGit(), line).Some? then files + [Header(Strip(DiffGit(), line).value)]
    else if files == [] then files
    else files[..|files| - 1] + [ReadInto(files[|files| - 1], line)]
  }

  function ReadLines(files: seq<PatchFile>, ls: seq<Text>): seq<PatchFile>
    decreases |ls|
  {
    if ls == [] then files else ReadLines(ReadLine(files, ls[0]), ls[1..])
  }

  function ParsePatch(patch: Text): seq<PatchFile> {
    ReadLines([], Lines(patch))
  }

  method RunParsePatch(patch: Text) returns (files: seq<PatchFile>)
    ensures files == ParsePatch(patch)
  {
    hide ReadLine, Lines;
    var ls := Lines(patch);
    files := [];
    for i := 0 to |ls|
      invariant ReadLines(files, ls[i..]) == ReadLines([], ls)
    {
      assert ls[i..][1..] == ls[i + 1..];
      files := ReadLine(files, ls[i]);
    }
  }

  // ------------------------------------------------------------------ printing

  function Range(h: Hunk): Text {
    if h.oldCount == 1 then Decimal(h.oldStart) else Decimal(h.oldStart) + [COMMA] + Decimal(h.oldCount)
  }

  /** `newSide` is what the hunk header says of the new side. */
  function HunkHead(newSide: Hunk -> Text, h: Hunk): Text {
    HunkMark() + ([MINUS] + Range(h) + [SPACE] + newSide(h))
  }

  function OpByte(op: char): byte {
    if op == '+' then PLUS else if op == '-' then MINUS else SPACE
  }

  function HunkLineText(l: HunkLine): seq<Text> {
    [[OpByte(l.op)] + l.text] + if l.newline then [] else [Hint()]
  }

  function HunkBody(ls: seq<HunkLine>): seq<Text> {
    if ls == [] then [] else HunkBody(ls[..|ls| - 1]) + HunkLineText(ls[|ls| - 1])
  }

  function HunksText(newSide: Hunk -> Text, hs: seq<Hunk>): seq<Text> {
    if hs == [] then []
    else HunksText(newSide, hs[..|hs| - 1]) + ([HunkHead(newSide, hs[|hs| - 1])] + HunkBody(hs[|hs| - 1].lines))
  }

  function HeadLine(f: PatchFile): Text {
    DiffGit() + (f.oldPath + SEP + f.newPath)
  }

  function Marks(f: PatchFile): seq<Text> {
    (if f.added then [NewFileMode() + Mode()] else []) + (if f.deleted then [DeletedFileMode() + Mode()] else [])
  }

  function Moves(f: PatchFile): seq<Text> {
    if !f.renamed then []
    else
      (if f.hunks == [] then [Similarity() + Percent()] else [])
      + [RenameFrom() + f.oldPath, RenameTo() + f.newPath]
  }

  function Sides(f: PatchFile): seq<Text> {
    if f.hunks == [] then []
    else
      [OldName() + (if f.added then DevNull() else SideA() + f.oldPath),
       NewName() + (if f.deleted then DevNull() else SideB() + f.newPath)]
  }

  function FileBody(newSide: Hunk -> Text, f: PatchFile): seq<Text> {
    Marks(f) + Moves(f) + Sides(f) + HunksText(newSide, f.hunks)
  }

  function FilesText(newSide: Hunk -> Text, fs: seq<PatchFile>): seq<Text> {
    if fs == [] then []
    else FilesText(newSide, fs[..|fs| - 1]) + ([HeadLine(fs[|fs| - 1])] + FileBody(newSide, fs[|fs| - 1]))
  }

  function PatchBytes(newSide: Hunk -> Text, fs: seq<PatchFile>): Text {
    Print(FilesText(newSide, fs))
  }

  // ------------------------------------------------------------ what can be printed

  predicate PlainLine(l: HunkLine) {
    Plain(l.text) && l.op in {' ', '+', '-'}
  }

  predicate PlainHunk(newSide: Hunk -> Text, h: Hunk) {
    && h.oldStart <= U64_MAX && h.oldCount <= U64_MAX && Plain(newSide(h))
    && forall i :: 0 <= i < |h.lines| ==> PlainLine(h.lines[i])
  }

  predicate PlainFile(newSide: Hunk -> Text, f: PatchFile) {
    && Plain(f.oldPath) && Plain(f.newPath)
    && forall i :: 0 <= i < |f.hunks| ==> PlainHunk(newSide, f.hunks[i])
  }

  // ------------------------------------------------------------- single lines

  lemma NotStripped(prefix: Text, line: Text, k: nat)
    requires k < |prefix| && (k < |line| ==> line[k] != prefix[k])
    ensures Strip(prefix, line) == None
  {
  }

  lemma StripsOwn(prefix: Text, x: Text)
    ensures Strip(prefix, prefix + x) == Some(x)
  {
    assert (prefix + x)[|prefix|..] == x;
  }

  /** A line that opens with none of the reader's words. */
  lemma OpensOtherwise(line: Text)
    requires line != [] && line[0] !in {110, 100, 114, 64}
    ensures Strip(DiffGit(), line) == None && Strip(NewFileMode(), line) == None && Strip(DeletedFileMode(), line) == None
    ensures Strip(RenameFrom(), line) == None && Strip(RenameTo(), line) == None && Strip(HunkMark(), line) == None
  {
    hide *;
    FirstBytes();
    MoveBytes();
    NotStripped(DiffGit(), line, 0);
    NotStripped(NewFileMode(), line, 0);
    NotStripped(DeletedFileMode(), line, 0);
    NotStripped(RenameFrom(), line, 0);
    NotStripped(RenameTo(), line, 0);
    NotStripped(HunkMark(), line, 0);
  }

  lemma ReadsOpLine(f: PatchFile, l: HunkLine)
    requires f.hunks != [] && PlainLine(l)
    ensures var line := [OpByte(l.op)] + l.text;
            Strip(DiffGit(), line) == None
            && ReadInto(f, line) == f.(hunks := PushLine(f.hunks, l.(newline := true)))
  {
    hide Strip, PushLine, HunkOld, LastUnended, Word, DiffGit, NewFileMode, DeletedFileMode, RenameFrom, RenameTo, HunkMark;
    var line := [OpByte(l.op)] + l.text;
    OpensOtherwise(line);
    assert line[1..] == l.text;
    assert line[0] as char == l.op;
  }

  lemma ReadsHint(f: PatchFile)
    ensures Strip(DiffGit(), Hint()) == None
    ensures ReadInto(f, Hint()) == f.(hunks := LastUnended(f.hunks))
  {
    FirstBytes();
    OpensOtherwise(Hint());
    hide Strip, PushLine, HunkOld, LastUnended, Word, DiffGit, NewFileMode, DeletedFileMode, RenameFrom, RenameTo, HunkMark, Hint;
  }

  lemma IndexSkips(s: Text, c: byte, rest: Text)
    requires c !in s && (rest == [] || rest[0] == c)
    ensures IndexOf(s + rest, c) == |s|
  {
    var t, k := s + rest, IndexOf(s + rest, c);
    assert forall i :: 0 <= i < |s| ==> t[i] == s[i] && s[i] != c;
    forall i | 0 <= i < k
      ensures t[i] != c
    {
      assert t[i] == t[..k][i];
    }
    assert rest != [] ==> t[|s|] == c;
  }

  /** A printed range: the digits before the comma, if it has one, and those after it. */
  lemma RangeParts(h: Hunk)
    ensures var range, a, b := Range(h), Decimal(h.oldStart), Decimal(h.oldCount);
            var k := IndexOf(range, COMMA);
            if h.oldCount == 1 then k == |range| && range == a
            else k == |a| < |range| && range[..k] == a && range[k + 1..] == b
  {
    hide Decimal, IndexOf;
    var range, a, b := Range(h), Decimal(h.oldStart), Decimal(h.oldCount);
    assert COMMA !in a;
    if h.oldCount == 1 {
      IndexSkips(a, COMMA, []);
      assert a + [] == a;
    } else {
      assert range == a + ([COMMA] + b);
      IndexSkips(a, COMMA, [COMMA] + b);
    }
  }

  lemma RangeHasNoSpace(h: Hunk)
    ensures SPACE !in [MINUS] + Range(h)
  {
    hide Decimal;
  }

  lemma HunkOldReads(h: Hunk, tail: Text)
    requires h.oldStart <= U64_MAX && h.oldCount <= U64_MAX
    ensures HunkOld([MINUS] + Range(h) + [SPACE] + tail) == (h.oldStart, h.oldCount)
  {
    hide ParseUsize, Decimal, IndexOf, Range;
    var w := [MINUS] + Range(h);
    RangeHasNoSpace(h);
    assert w + [SPACE] + tail == w + ([SPACE] + tail);
    IndexSkips(w, SPACE, [SPACE] + tail);
    assert (w + [SPACE] + tail)[..|w|] == w && w[1..] == Range(h);
    RangeParts(h);
    ParseOfDecimal(h.oldStart);
    ParseOfDecimal(h.oldCount);
  }

  lemma ReadsHunkHead(newSide: Hunk -> Text, f: PatchFile, h: Hunk)
    requires h.oldStart <= U64_MAX && h.oldCount <= U64_MAX
    ensures Strip(DiffGit(), HunkHead(newSide, h)) == None
    ensures ReadInto(f, HunkHead(newSide, h)) == f.(hunks := f.hunks + [Hunk(h.oldStart, h.oldCount, [])])
  {
    hide Strip, HunkOld, PushLine, LastUnended, Range, Word, DiffGit, NewFileMode, DeletedFileMode, RenameFrom, RenameTo, HunkMark;
    FirstBytes();
    MoveBytes();
    var line, tail := HunkHead(newSide, h), [MINUS] + Range(h) + [SPACE] + newSide(h);
    assert line[0] == HunkMark()[0];
    NotStripped(DiffGit(), line, 0);
    NotStripped(NewFileMode(), line, 0);
    NotStripped(DeletedFileMode(), line, 0);
    NotStripped(RenameFrom(), line, 0);
    NotStripped(RenameTo(), line, 0);
    StripsOwn(HunkMark(), tail);
    HunkOldReads(h, newSide(h));
  }

  // ---------------------------------------------------------- runs of lines

  function ReadIntoAll(f: PatchFile, ls: seq<Text>): PatchFile
    decreases |ls|
  {
    if ls == [] then f else ReadInto(ReadIntoAll(f, ls[..|ls| - 1]), ls[|ls| - 1])
  }

  /** No line that opens another file. */
  predicate OneFile(ls: seq<Text>) {
    forall i :: 0 <= i < |ls| ==> Strip(DiffGit(), ls[i]) == None
  }

  lemma {:induction false} IntoJoin(f: PatchFile, a: seq<Text>, b: seq<Text>)
    ensures ReadIntoAll(f, a + b) == ReadIntoAll(ReadIntoAll(f, a), b)
    decreases |b|
  {
    hide ReadInto;
    if b == [] {
      assert a + b == a;
    } else {
      var n := |b| - 1;
      assert (a + b)[..|a + b| - 1] == a + b[..n];
      IntoJoin(f, a, b[..n]);
    }
  }

  lemma {:induction false} ReadJoin(fs: seq<PatchFile>, a: seq<Text>, b: seq<Text>)
    ensures ReadLines(fs, a + b) == ReadLines(ReadLines(fs, a), b)
    decreases |a|
  {
    hide ReadLine;
    if a == [] {
      assert a + b == b;
    } else {
      assert (a + b)[1..] == a[1..] + b;
      ReadJoin(ReadLine(fs, a[0]), a[1..], b);
    }
  }

  lemma {:induction false} ReadWithin(done: seq<PatchFile>, f: PatchFile, ls: seq<Text>)
    requires OneFile(ls)
    ensures ReadLines(done + [f], ls) == done + [ReadIntoAll(f, ls)]
    decreases |ls|
  {
    hide ReadInto, Strip, Header;
    if ls != [] {
      var n := |ls| - 1;
      var last: Text := ls[n];
      assert ls == ls[..n] + [last];
      ReadWithin(done, f, ls[..n]);
      ReadJoin(done + [f], ls[..n], [last]);
      var g := ReadIntoAll(f, ls[..n]);
      assert [last][1..] == [];
      assert (done + [g])[..|done|] == done;
      assert ReadLine(done + [g], last) == done + [ReadInto(g, last)];
      assert ReadLines(ReadLine(done + [g], last), []) == ReadLine(done + [g], last);
    }
  }

  lemma IntoOne(f: PatchFile, line: Text)
    ensures ReadIntoAll(f, [line]) == ReadInto(f, line)
  {
    assert [line][..0] == [];
    assert ReadIntoAll(f, []) == f;
  }

  lemma OneFileJoin(a: seq<Text>, b: seq<Text>)
    requires OneFile(a) && OneFile(b)
    ensures OneFile(a + b)
  {
    hide Strip;
  }

  // ---------------------------------------------------------------- one hunk

  lemma ReadsEnded(f: PatchFile, hs: seq<Hunk>, h: Hunk, l: HunkLine)
    requires f.hunks == hs + [h] && PlainLine(l)
    ensures var line := [OpByte(l.op)] + l.text;
            OneFile([line]) && ReadIntoAll(f, [line]) == f.(hunks := hs + [h.(lines := h.lines + [l.(newline := true)])])
  {
    hide ReadInto, Strip, OpByte, PlainLine;
    var line := [OpByte(l.op)] + l.text;
    ReadsOpLine(f, l);
    IntoOne(f, line);
    assert (hs + [h])[..|hs|] == hs;
  }

  lemma ReadsUnended(f: PatchFile, hs: seq<Hunk>, h: Hunk, l: HunkLine)
    requires f.hunks == hs + [h.(lines := h.lines + [l])]
    ensures OneFile([Hint()])
    ensures ReadIntoAll(f, [Hint()]) == f.(hunks := hs + [h.(lines := h.lines + [l.(newline := false)])])
  {
    hide ReadInto, Strip, Word;
    ReadsHint(f);
    IntoOne(f, Hint());
    var h' := h.(lines := h.lines + [l]);
    assert h'.lines[..|h.lines|] == h.lines;
    assert f.hunks[..|hs|] == hs;
  }

  lemma ReadsHunkLine(f: PatchFile, hs: seq<Hunk>, h: Hunk, l: HunkLine)
    requires f.hunks == hs + [h] && PlainLine(l)
    ensures OneFile(HunkLineText(l))
    ensures ReadIntoAll(f, HunkLineText(l)) == f.(hunks := hs + [h.(lines := h.lines + [l])])
  {
    hide ReadInto, ReadIntoAll, Strip, OpByte, PlainLine, Word;
    var line := [OpByte(l.op)] + l.text;
    ReadsEnded(f, hs, h, l);
    if l.newline {
      assert HunkLineText(l) == [line];
    } else {
      var f' := f.(hunks := hs + [h.(lines := h.lines + [l.(newline := true)])]);
      ReadsUnended(f', hs, h, l.(newline := true));
      IntoJoin(f, [line], [Hint()]);
    }
  }

  lemma {:induction false} ReadsHunkBody(f: PatchFile, hs: seq<Hunk>, h: Hunk, ls: seq<HunkLine>)
    requires f.hunks == hs + [h.(lines := [])] && forall i :: 0 <= i < |ls| ==> PlainLine(ls[i])
    ensures OneFile(HunkBody(ls)) && ReadIntoAll(f, HunkBody(ls)) == f.(hunks := hs + [h.(lines := ls)])
  {
    hide ReadInto, Strip, PlainLine, HunkLineText;
    if ls != [] {
      var n := |ls| - 1;
      ReadsHunkBody(f, hs, h, ls[..n]);
      var g := f.(hunks := hs + [h.(lines := ls[..n])]);
      ReadsHunkLine(g, hs, h.(lines := ls[..n]), ls[n]);
      IntoJoin(f, HunkBody(ls[..n]), HunkLineText(ls[n]));
      OneFileJoin(HunkBody(ls[..n]), HunkLineText(ls[n]));
      assert ls[..n] + [ls[n]] == ls;
    }
  }

  lemma {:induction false} ReadsHunks(newSide: Hunk -> Text, f: PatchFile, hs: seq<Hunk>)
    requires f.hunks == [] && forall i :: 0 <= i < |hs| ==> PlainHunk(newSide, hs[i])
    ensures OneFile(HunksText(newSide, hs)) && ReadIntoAll(f, HunksText(newSide, hs)) == f.(hunks := hs)
  {
    hide ReadInto, Strip, HunkBody, HunkHead;
    if hs != [] {
      var n := |hs| - 1;
      var front, h := hs[..n], hs[n];
      var head, body := HunkHead(newSide, h), HunkBody(h.lines);
      ReadsHunks(newSide, f, front);
      var g := f.(hunks := front);
      ReadsHunkHead(newSide, g, h);
      IntoOne(g, head);
      var g' := f.(hunks := front + [Hunk(h.oldStart, h.oldCount, [])]);
      ReadsHunkBody(g', front, h, h.lines);
      IntoJoin(g, [head], body);
      OneFileJoin([head], body);
      IntoJoin(f, HunksText(newSide, front), [head] + body);
      OneFileJoin(HunksText(newSide, front), [head] + body);
      assert front + [h] == hs;
    }
  }

  // ---------------------------------------------------------------- one file

  lemma ReadsAdded(g: PatchFile)
    ensures OneFile([NewFileMode() + Mode()]) && ReadIntoAll(g, [NewFileMode() + Mode()]) == g.(added := true)
  {
    hide Strip, HunkOld, PushLine, LastUnended, ReadIntoAll, Word, DiffGit, NewFileMode, DeletedFileMode, RenameFrom, RenameTo, HunkMark, Similarity, OldName, NewName, Mode, Percent;
    var a := NewFileMode() + Mode();
    FirstBytes();
    StripsOwn(NewFileMode(), Mode());
    NotStripped(DiffGit(), a, 0);
    IntoOne(g, a);
  }

  lemma ReadsDeleted(g: PatchFile)
    ensures OneFile([DeletedFileMode() + Mode()]) && ReadIntoAll(g, [DeletedFileMode() + Mode()]) == g.(deleted := true)
  {
    hide Strip, HunkOld, PushLine, LastUnended, ReadIntoAll, Word, DiffGit, NewFileMode, DeletedFileMode, RenameFrom, RenameTo, HunkMark, Similarity, OldName, NewName, Mode, Percent;
    var d := DeletedFileMode() + Mode();
    FirstBytes();
    StripsOwn(DeletedFileMode(), Mode());
    NotStripped(DiffGit(), d, 1);
    NotStripped(NewFileMode(), d, 0);
    IntoOne(g, d);
  }

  lemma ReadsMarks(f: PatchFile, g: PatchFile)
    requires !g.added && !g.deleted
    ensures OneFile(Marks(f)) && ReadIntoAll(g, Marks(f)) == g.(added := f.added, deleted := f.deleted)
  {
    hide Strip, ReadInto, Word, DiffGit, NewFileMode, DeletedFileMode, RenameFrom, RenameTo, HunkMark, Similarity, OldName, NewName, Mode, Percent;
    var a: seq<Text> := if f.added then [NewFileMode() + Mode()] else [];
    var d: seq<Text> := if f.deleted then [DeletedFileMode() + Mode()] else [];
    ReadsAdded(g);
    ReadsDeleted(g.(added := f.added));
    IntoJoin(g, a, d);
  }

  lemma ReadsMove(f: PatchFile, g: PatchFile)
    ensures var a, b := RenameFrom() + f.oldPath, RenameTo() + f.newPath;
            OneFile([a, b]) && ReadIntoAll(g, [a, b]) == g.(renamed := true, oldPath := f.oldPath, newPath := f.newPath)
  {
    hide Strip, HunkOld, PushLine, LastUnended, ReadIntoAll, Word, DiffGit, NewFileMode, DeletedFileMode, RenameFrom, RenameTo, HunkMark, Similarity, OldName, NewName, Mode, Percent;
    var a, b := RenameFrom() + f.oldPath, RenameTo() + f.newPath;
    FirstBytes();
    MoveBytes();
    assert a[0] == 114 && b[0] == 114 && b[7] == 116;
    NotStripped(DiffGit(), a, 0);
    NotStripped(NewFileMode(), a, 0);
    NotStripped(DeletedFileMode(), a, 0);
    NotStripped(DiffGit(), b, 0);
    NotStripped(NewFileMode(), b, 0);
    NotStripped(DeletedFileMode(), b, 0);
    NotStripped(RenameFrom(), b, 7);
    StripsOwn(RenameFrom(), f.oldPath);
    StripsOwn(RenameTo(), f.newPath);
    var g' := g.(renamed := true, oldPath := f.oldPath);
    IntoOne(g, a);
    IntoOne(g', b);
    IntoJoin(g, [a], [b]);
    assert [a] + [b] == [a, b];
  }

  /** Header noise before the first hunk changes nothing. */
  lemma ReadsNoise(word: Text, g: PatchFile, x: Text)
    requires word in {Similarity(), OldName(), NewName()} && g.hunks == []
    ensures Strip(DiffGit(), word + x) == None && ReadInto(g, word + x) == g
  {
    hide Strip, HunkOld, PushLine, LastUnended, Word, DiffGit, NewFileMode, DeletedFileMode, RenameFrom, RenameTo, HunkMark, Similarity, OldName, NewName, Mode, Percent;
    MoveBytes();
    var line := word + x;
    assert line[0] == word[0];
    OpensOtherwise(line);
    StripsOwn(word, x);
  }

  lemma ReadsMoves(f: PatchFile, g: PatchFile)
    requires g.hunks == [] && !g.renamed && (!f.renamed ==> g.oldPath == f.oldPath && g.newPath == f.newPath)
    ensures OneFile(Moves(f)) && ReadIntoAll(g, Moves(f)) == g.(renamed := f.renamed, oldPath := f.oldPath, newPath := f.newPath)
  {
    hide Strip, ReadInto, Word, DiffGit, NewFileMode, DeletedFileMode, RenameFrom, RenameTo, HunkMark, Similarity, OldName, NewName, Mode, Percent;
    if f.renamed {
      var noise, a, b := Similarity() + Percent(), RenameFrom() + f.oldPath, RenameTo() + f.newPath;
      ReadsNoise(Similarity(), g, Percent());
      ReadsMove(f, g);
      IntoOne(g, noise);
      IntoJoin(g, [noise], [a, b]);
      assert Moves(f) == if f.hunks == [] then [noise] + [a, b] else [a, b];
    }
  }

  lemma ReadsSides(f: PatchFile, g: PatchFile)
    requires g.hunks == []
    ensures OneFile(Sides(f)) && ReadIntoAll(g, Sides(f)) == g
  {
    hide Strip, ReadInto, DevNull, SideA, SideB, Word, DiffGit, NewFileMode, DeletedFileMode, RenameFrom, RenameTo, HunkMark, Similarity, OldName, NewName, Mode, Percent;
    if f.hunks != [] {
      var x := if f.added then DevNull() else SideA() + f.oldPath;
      var y := if f.deleted then DevNull() else SideB() + f.newPath;
      ReadsNoise(OldName(), g, x);
      ReadsNoise(NewName(), g, y);
      IntoOne(g, OldName() + x);
      IntoOne(g, NewName() + y);
      IntoJoin(g, [OldName() + x], [NewName() + y]);
      assert Sides(f) == [OldName() + x] + [NewName() + y];
    }
  }

  /** What the reader makes of a printed file: a rename names its paths again, any other relies on its header. */
  function ReadBack(f: PatchFile): PatchFile {
    var h := Header(f.oldPath + SEP + f.newPath);
    if f.renamed then f else f.(oldPath := h.oldPath, newPath := h.newPath)
  }

  lemma ReadsBody(newSide: Hunk -> Text, f: PatchFile, o: Text, n: Text)
    requires PlainFile(newSide, f) && (!f.renamed ==> o == f.oldPath && n == f.newPath)
    ensures OneFile(FileBody(newSide, f))
    ensures ReadIntoAll(PatchFile(o, n, false, false, false, []), FileBody(newSide, f)) == f
  {
    hide Strip, ReadInto, Marks, Moves, Sides, HunksText, Plain;
    var g := PatchFile(o, n, false, false, false, []);
    var marks, moves, sides, hunks := Marks(f), Moves(f), Sides(f), HunksText(newSide, f.hunks);
    ReadsMarks(f, g);
    var g1 := g.(added := f.added, deleted := f.deleted);
    ReadsMoves(f, g1);
    var g2 := g1.(renamed := f.renamed, oldPath := f.oldPath, newPath := f.newPath);
    ReadsSides(f, g2);
    ReadsHunks(newSide, g2, f.hunks);
    IntoJoin(g, marks, moves);
    IntoJoin(g, marks + moves, sides);
    IntoJoin(g, marks + moves + sides, hunks);
    OneFileJoin(marks, moves);
    OneFileJoin(marks + moves, sides);
    OneFileJoin(marks + moves + sides, hunks);
  }

  /** Printing does not show the paths of a file that is not a rename but in its header. */
  lemma BodyHidesPaths(newSide: Hunk -> Text, f: PatchFile, o: Text, n: Text)
    requires PlainFile(newSide, f) && !f.renamed
    ensures OneFile(FileBody(newSide, f))
    ensures ReadIntoAll(PatchFile(o, n, false, false, false, []), FileBody(newSide, f)) == f.(oldPath := o, newPath := n)
  {
    hide Strip, ReadInto, Marks, Sides, HunksText, Plain;
    var g := PatchFile(o, n, false, false, false, []);
    var marks, sides, hunks := Marks(f), Sides(f), HunksText(newSide, f.hunks);
    ReadsMarks(f, g);
    var g1 := g.(added := f.added, deleted := f.deleted);
    ReadsSides(f, g1);
    ReadsHunks(newSide, g1, f.hunks);
    assert marks + [] == marks;
    IntoJoin(g, marks, sides);
    IntoJoin(g, marks + sides, hunks);
    OneFileJoin(marks, sides);
    OneFileJoin(marks + sides, hunks);
  }

  lemma ReadsFile(newSide: Hunk -> Text, done: seq<PatchFile>, f: PatchFile)
    requires PlainFile(newSide, f)
    ensures ReadLines(done, [HeadLine(f)] + FileBody(newSide, f)) == done + [ReadBack(f)]
  {
    hide Strip, ReadInto, FileBody, PlainFile, LastSep;
    var rest, body := f.oldPath + SEP + f.newPath, FileBody(newSide, f);
    StripsOwn(DiffGit(), rest);
    var h := Header(rest);
    ReadJoin(done, [HeadLine(f)], body);
    assert [HeadLine(f)][1..] == [];
    assert ReadLines(done, [HeadLine(f)]) == done + [h];
    if f.renamed {
      ReadsBody(newSide, f, h.oldPath, h.newPath);
    } else {
      BodyHidesPaths(newSide, f, h.oldPath, h.newPath);
    }
    ReadWithin(done, h, body);
  }

  function AllBack(fs: seq<PatchFile>): (r: seq<PatchFile>)
    ensures |r| == |fs| && forall i :: 0 <= i < |fs| ==> r[i] == ReadBack(fs[i])
  {
    seq(|fs|, i requires 0 <= i < |fs| => ReadBack(fs[i]))
  }

  lemma ReadNothing()
    ensures ReadLines([], []) == []
  {
  }

  lemma {:induction false} ReadsFiles(newSide: Hunk -> Text, fs: seq<PatchFile>)
    requires forall i :: 0 <= i < |fs| ==> PlainFile(newSide, fs[i])
    ensures ReadLines([], FilesText(newSide, fs)) == AllBack(fs)
  {
    hide FileBody, HeadLine, PlainFile, ReadBack, ReadLines;
    if fs != [] {
      var n := |fs| - 1;
      ReadsFiles(newSide, fs[..n]);
      ReadsFile(newSide, AllBack(fs[..n]), fs[n]);
      ReadJoin([], FilesText(newSide, fs[..n]), [HeadLine(fs[n])] + FileBody(newSide, fs[n]));
      assert AllBack(fs) == AllBack(fs[..n]) + [ReadBack(fs[n])];
    } else {
      ReadNothing();
    }
  }

  // ------------------------------------------------------------ the round trip

  lemma PlainJoin(a: Text, b: Text)
    requires Plain(a) && Plain(b)
    ensures Plain(a + b)
  {
    if b == [] { assert a + b == a; }
  }

  predicate AllPlain(ls: seq<Text>) {
    forall i :: 0 <= i < |ls| ==> Plain(ls[i])
  }

  lemma DecimalIsPlain(n: nat)
    ensures Plain(Decimal(n))
  {
    assert IsDigit(Decimal(n)[|Decimal(n)| - 1]);
  }

  lemma HeadIsPlain(newSide: Hunk -> Text, h: Hunk)
    requires PlainHunk(newSide, h)
    ensures Plain(HunkHead(newSide, h))
  {
    hide Plain, Decimal, Word, HunkMark;
    DecimalIsPlain(h.oldStart);
    DecimalIsPlain(h.oldCount);
    SignsArePlain();
    PlainJoin(Decimal(h.oldStart), [COMMA]);
    PlainJoin(Decimal(h.oldStart) + [COMMA], Decimal(h.oldCount));
    PlainJoin([MINUS], Range(h));
    PlainJoin([MINUS] + Range(h), [SPACE]);
    PlainJoin([MINUS] + Range(h) + [SPACE], newSide(h));
    ShortWordsArePlain();
    PlainJoin(HunkMark(), [MINUS] + Range(h) + [SPACE] + newSide(h));
  }

  lemma SignsArePlain()
    ensures Plain([COMMA]) && Plain([MINUS]) && Plain([SPACE]) && Plain([PLUS]) && Plain(SEP)
  {
  }

  lemma WordIsPlain(s: string)
    requires forall i :: 0 <= i < |s| ==> ' ' <= s[i] <= '~'
    ensures Ascii(s) && Plain(Word(s))
  {
  }

  lemma HintIsPlain()
    ensures Plain(Hint())
  {
    hide Plain;
    WordIsPlain("\\ No newline at end of file");
  }

  lemma HeadWordsArePlain()
    ensures Plain(DiffGit()) && Plain(NewFileMode()) && Plain(DeletedFileMode())
  {
    hide Plain;
    WordIsPlain("diff --git a/");
    WordIsPlain("new file mode");
    WordIsPlain("deleted file mode");
  }

  lemma MoveWordsArePlain()
    ensures Plain(RenameFrom()) && Plain(RenameTo()) && Plain(Similarity())
  {
    hide Plain;
    WordIsPlain("rename from ");
    WordIsPlain("rename to ");
    WordIsPlain("similarity index");
  }

  lemma ShortWordsArePlain()
    ensures Plain(HunkMark()) && Plain(OldName()) && Plain(NewName()) && Plain(DevNull()) && Plain(SideA()) && Plain(SideB())
    ensures Plain(Mode()) && Plain(Percent())
  {
    hide Plain;
    WordIsPlain(" 100644");
    WordIsPlain(" 100%");
    WordIsPlain("@@ ");
    WordIsPlain("--- ");
    WordIsPlain("+++ ");
    WordIsPlain("/dev/null");
    WordIsPlain("a/");
    WordIsPlain("b/");
  }

  lemma LineIsPlain(l: HunkLine)
    requires PlainLine(l)
    ensures AllPlain(HunkLineText(l))
  {
    hide Plain, Hint;
    SignsArePlain();
    PlainJoin([OpByte(l.op)], l.text);
    HintIsPlain();
  }

  lemma {:induction false} BodyIsPlain(ls: seq<HunkLine>)
    requires forall i :: 0 <= i < |ls| ==> PlainLine(ls[i])
    ensures AllPlain(HunkBody(ls))
  {
    hide Plain, PlainLine, HunkLineText;
    if ls != [] {
      BodyIsPlain(ls[..|ls| - 1]);
      LineIsPlain(ls[|ls| - 1]);
    }
  }

  lemma {:induction false} HunksArePlain(newSide: Hunk -> Text, hs: seq<Hunk>)
    requires forall i :: 0 <= i < |hs| ==> PlainHunk(newSide, hs[i])
    ensures AllPlain(HunksText(newSide, hs))
  {
    hide Plain, HunkHead, HunkBody;
    if hs != [] {
      var h := hs[|hs| - 1];
      HunksArePlain(newSide, hs[..|hs| - 1]);
      HeadIsPlain(newSide, h);
      BodyIsPlain(h.lines);
    }
  }

  lemma HeadLineIsPlain(f: PatchFile)
    requires Plain(f.oldPath) && Plain(f.newPath)
    ensures Plain(HeadLine(f))
  {
    hide Plain, DiffGit;
    SignsArePlain();
    HeadWordsArePlain();
    PlainJoin(f.oldPath, SEP);
    PlainJoin(f.oldPath + SEP, f.newPath);
    PlainJoin(DiffGit(), f.oldPath + SEP + f.newPath);
  }

  lemma MarksArePlain(f: PatchFile)
    ensures AllPlain(Marks(f))
  {
    hide Plain, NewFileMode, DeletedFileMode, Mode;
    HeadWordsArePlain();
    ShortWordsArePlain();
    PlainJoin(NewFileMode(), Mode());
    PlainJoin(DeletedFileMode(), Mode());
  }

  lemma MovesArePlain(f: PatchFile)
    requires Plain(f.oldPath) && Plain(f.newPath)
    ensures AllPlain(Moves(f))
  {
    hide Plain, RenameFrom, RenameTo, Similarity, Percent;
    MoveWordsArePlain();
    ShortWordsArePlain();
    PlainJoin(Similarity(), Percent());
    PlainJoin(RenameFrom(), f.oldPath);
    PlainJoin(RenameTo(), f.newPath);
  }

  lemma SidesArePlain(f: PatchFile)
    requires Plain(f.oldPath) && Plain(f.newPath)
    ensures AllPlain(Sides(f))
  {
    hide Plain, OldName, NewName, DevNull, SideA, SideB;
    ShortWordsArePlain();
    PlainJoin(SideA(), f.oldPath);
    PlainJoin(SideB(), f.newPath);
    PlainJoin(OldName(), if f.added then DevNull() else SideA() + f.oldPath);
    PlainJoin(NewName(), if f.deleted then DevNull() else SideB() + f.newPath);
  }

  lemma FileIsPlain(newSide: Hunk -> Text, f: PatchFile)
    requires PlainFile(newSide, f)
    ensures Plain(HeadLine(f)) && AllPlain(FileBody(newSide, f))
  {
    hide Plain, HunksText, PlainHunk, Marks, Moves, Sides, HeadLine;
    HeadLineIsPlain(f);
    MarksArePlain(f);
    MovesArePlain(f);
    SidesArePlain(f);
    HunksArePlain(newSide, f.hunks);
  }

  lemma {:induction false} FilesArePlain(newSide: Hunk -> Text, fs: seq<PatchFile>)
    requires forall i :: 0 <= i < |fs| ==> PlainFile(newSide, fs[i])
    ensures AllPlain(FilesText(newSide, fs))
  {
    hide Plain, PlainFile, HeadLine, FileBody;
    if fs != [] {
      FilesArePlain(newSide, fs[..|fs| - 1]);
      FileIsPlain(newSide, fs[|fs| - 1]);
    }
  }

  /** What the reader makes of a printed patch. */
  lemma ParseOfPrint(newSide: Hunk -> Text, fs: seq<PatchFile>)
    requires forall i :: 0 <= i < |fs| ==> PlainFile(newSide, fs[i])
    ensures ParsePatch(PatchBytes(newSide, fs)) == AllBack(fs)
  {
    hide FilesText, PlainFile, Plain, Print, Lines, AllBack, ReadLines;
    FilesArePlain(newSide, fs);
    LinesOfPrint(FilesText(newSide, fs));
    ReadsFiles(newSide, fs);
  }

  /** A header splits where it was joined exactly when the new path has no " b/" of its own. */
  lemma HeaderSplits(o: Text, n: Text)
    ensures var h := Header(o + SEP + n);
            (h.oldPath == o && h.newPath == n) <==> forall j: nat :: !SepAt(n, j)
  {
    var s := o + SEP + n;
    hide LastSep;
    assert SepAt(s, |o|);
    var k := LastSep(s).value;
    assert s[|o| + 3..] == n && s[..|o|] == o;
    assert forall j: nat :: SepAt(n, j) <==> SepAt(s, |o| + 3 + j);
    assert !SepAt(s, |o| + 1) && !SepAt(s, |o| + 2);
    var j: nat := if k >= |o| + 3 then k - |o| - 3 else 0;
    assert k != |o| ==> SepAt(n, j);
  }

  /** Reading a printed patch gives its files exactly when each is a rename or has no " b/" in its path. */
  lemma ParseIsInverse(newSide: Hunk -> Text, fs: seq<PatchFile>)
    requires forall i :: 0 <= i < |fs| ==> PlainFile(newSide, fs[i])
    ensures ParsePatch(PatchBytes(newSide, fs)) == fs
       <==> forall i :: 0 <= i < |fs| ==> fs[i].renamed || forall j: nat :: !SepAt(fs[i].newPath, j)
  {
    hide ParsePatch, PatchBytes, PlainFile, SepAt, Header;
    ParseOfPrint(newSide, fs);
    forall i | 0 <= i < |fs|
      ensures ReadBack(fs[i]) == fs[i] <==> (fs[i].renamed || forall j: nat :: !SepAt(fs[i].newPath, j))
    {
      HeaderSplits(fs[i].oldPath, fs[i].newPath);
    }
    if forall i :: 0 <= i < |fs| ==> fs[i].renamed || forall j: nat :: !SepAt(fs[i].newPath, j) {
      assert AllBack(fs) == fs;
    }
  }

  /** A path with " b/" in it, printed in a header alone, comes back as two others: a longer old and a new one without " b/". */
  lemma SplitNames(p: Text, j: nat)
    requires SepAt(p, j)
    ensures var h := Header(p + SEP + p);
            |h.oldPath| > |p| && forall k: nat :: !SepAt(h.newPath, k)
  {
    hide LastSep;
    var s := p + SEP + p;
    assert SepAt(s, |p| + 3 + j);
    var k := LastSep(s).value;
    var n := s[k + 3..];
    assert forall i: nat :: SepAt(n, i) <==> SepAt(s, k + 3 + i);
  }
}
