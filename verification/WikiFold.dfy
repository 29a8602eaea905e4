/**
 The wiki as a fold of applied patches in chain order, and the whole way round:
 what the emitter prints for two trees, the fold reads and applies.
 */
module WikiFold {
  import opened Prelude
  import opened Bytes
  import opened PatchHunks
  import opened PatchTree
  import opened Wiki
  import opened PatchText
  import opened PatchEmit

  /** The two fields the fold looks at, where they are strings. */
  datatype Payload = Payload(op: Option<string>, value: Option<Text>)

  const WIKI_PATCH: string := "wiki_patch"

  function Verdict(tree: Tree, p: Payload): Result<Tree, Reason> {
    if p.op != Some(WIKI_PATCH) || p.value.None? then Err(EmptyPatch)
    else ApplyPatch(tree, ParsePatch(p.value.value))
  }

  datatype Base = Base(tree: Tree, rev: nat)

  function FoldOne(b: Base, p: Payload): Base {
    match Verdict(b.tree, p)
    case Ok(t) => Base(t, b.rev + 1)
    case Err(_) => b
  }

  function FoldFrom(b: Base, ps: seq<Payload>): Base
    decreases |ps|
  {
    if ps == [] then b else FoldFrom(FoldOne(b, ps[0]), ps[1..])
  }

  function WikiFold(ps: seq<Payload>): Base {
    FoldFrom(Base(map[], 0), ps)
  }

  method RunFoldOne(t: WikiTree, p: Payload) returns (applied: bool)
    modifies t
    ensures applied == Verdict(old(t.entries), p).Ok?
    ensures t.entries == if applied then Verdict(old(t.entries), p).value else old(t.entries)
  {
    if p.op != Some(WIKI_PATCH) || p.value.None? {
      return false;
    }
    var files := RunParsePatch(p.value.value);
    var r := t.Apply(files);
    return r.Ok?;
  }

  method RunWikiFold(ps: seq<Payload>) returns (tree: Tree, rev: nat)
    ensures WikiFold(ps) == Base(tree, rev)
  {
    hide Verdict;
    var t := new WikiTree();
    rev := 0;
    for i := 0 to |ps|
      invariant FoldFrom(Base(t.entries, rev), ps[i..]) == WikiFold(ps)
    {
      assert ps[i..][1..] == ps[i + 1..];
      var applied := RunFoldOne(t, ps[i]);
      if applied {
        rev := rev + 1;
      }
    }
    tree := t.entries;
  }

  /** A snapshot and the tail after it reach the tree of the whole log. */
  lemma {:induction false} FoldExtends(b: Base, ps: seq<Payload>, more: seq<Payload>)
    ensures FoldFrom(b, ps + more) == FoldFrom(FoldFrom(b, ps), more)
    decreases |ps|
  {
    hide FoldOne;
    if ps == [] {
      assert ps + more == more;
    } else {
      assert (ps + more)[1..] == ps[1..] + more;
      FoldExtends(FoldOne(b, ps[0]), ps[1..], more);
    }
  }

  /** A wiki payload whose patch applies to the tree. */
  ghost predicate Lands(tree: Tree, p: Payload) {
    p.op == Some("wiki_patch") && p.value.Some? && ApplyPatch(tree, ParsePatch(p.value.value)).Ok?
  }

  /** A payload that lands replaces the tree and moves the revision by one. */
  lemma LandedMoves(b: Base, ps: seq<Payload>, p: Payload)
    requires Lands(FoldFrom(b, ps).tree, p)
    ensures var before := FoldFrom(b, ps);
            FoldFrom(b, ps + [p]) == Base(ApplyPatch(before.tree, ParsePatch(p.value.value)).value, before.rev + 1)
  {
    hide ApplyPatch, ParsePatch, FoldFrom;
    FoldExtends(b, ps, [p]);
    OnePayload(FoldFrom(b, ps), p);
  }

  /** A payload that does not land, of another kind or void, could as well not be in the log. */
  lemma VoidDropsOut(b: Base, ps: seq<Payload>, p: Payload, more: seq<Payload>)
    requires !Lands(FoldFrom(b, ps).tree, p)
    ensures FoldFrom(b, ps + [p] + more) == FoldFrom(b, ps + more)
  {
    hide ApplyPatch, ParsePatch, FoldFrom;
    FoldExtends(b, ps + [p], more);
    FoldExtends(b, ps, more);
    FoldExtends(b, ps, [p]);
    OnePayload(FoldFrom(b, ps), p);
  }

  lemma OnePayload(b: Base, p: Payload)
    ensures FoldFrom(b, [p]) == FoldOne(b, p)
  {
    hide FoldOne;
    assert [p][1..] == [];
    assert FoldFrom(FoldOne(b, p), []) == FoldOne(b, p);
  }

  // ---------------------------------------------------------- paths of the base

  /** The path check passes over new paths of deletions, so a file marked added as well is created unchecked. */
  predicate Stray(f: PatchFile) {
    f.added && f.deleted && !ValidPath(f.newPath)
  }

  lemma FileKeepsPaths(t: Tree, f: PatchFile)
    requires ApplyFile(t, f).Ok?
    ensures forall p <- ApplyFile(t, f).value :: p in t || (p == f.newPath && (ValidPath(p) || Stray(f)))
    ensures f.added ==> f.newPath in ApplyFile(t, f).value
  {
    hide ApplyHunks, ValidPath;
  }

  lemma {:induction false} FilesKeepPaths(t: Tree, files: seq<PatchFile>)
    requires ApplyFiles(t, files).Ok? && ValidPaths(t) && forall i :: 0 <= i < |files| ==> !Stray(files[i])
    ensures ValidPaths(ApplyFiles(t, files).value)
    decreases |files|
  {
    hide ApplyFile, Stray;
    if files != [] {
      FileKeepsPaths(t, files[0]);
      FilesKeepPaths(ApplyFile(t, files[0]).value, files[1..]);
    }
  }

  lemma {:induction false} StrayIsKept(t: Tree, files: seq<PatchFile>, i: nat)
    requires ApplyFiles(t, files).Ok? && OneVoice(files) && i < |files| && Stray(files[i])
    ensures files[i].newPath in ApplyFiles(t, files).value
    decreases |files|
  {
    hide ApplyFile, ValidPath, Touched;
    var next := ApplyFile(t, files[0]).value;
    if i == 0 {
      FileKeepsPaths(t, files[0]);
      var p := files[0].newPath;
      TouchedByOne(files[1..], p);
      NewPathIsTouched(files[0]);
      if p != [] {
        NamedOnce(files, p);
      } else {
        NothingTouchesEmpty(files[1..]);
      }
      FilesKeepEntry(next, files[1..], p);
    } else {
      assert OneVoice(files[1..]);
      StrayIsKept(next, files[1..], i - 1);
    }
  }

  lemma NamedOnce(files: seq<PatchFile>, p: Text)
    requires OneVoice(files) && files != [] && p in Touched(files[0])
    ensures p !in TouchedPaths(files[1..])
  {
    hide Touched;
    TouchedByOne(files[1..], p);
    forall i | 0 <= i < |files[1..]|
      ensures p !in Touched(files[1..][i])
    {
      assert Touched(files[0]) !! Touched(files[i + 1]);
    }
  }

  lemma NewPathIsTouched(f: PatchFile)
    ensures f.newPath != [] ==> f.newPath in Touched(f)
  {
  }

  lemma {:induction false} NothingTouchesEmpty(files: seq<PatchFile>)
    ensures [] !in TouchedPaths(files)
  {
    if files != [] { NothingTouchesEmpty(files[1..]); }
  }

  /** A patch over valid paths leaves valid paths exactly when it marks no file with an invalid new path both added and deleted. */
  lemma PathsStayIffNoStray(t: Tree, files: seq<PatchFile>)
    requires ValidPaths(t) && ApplyPatch(t, files).Ok?
    ensures ValidPaths(ApplyPatch(t, files).value) <==> forall i :: 0 <= i < |files| ==> !Stray(files[i])
  {
    hide ApplyFiles, FirstRepeat, OneVoice;
    RepeatIsCollision(files);
    if i :| 0 <= i < |files| && Stray(files[i]) {
      StrayIsKept(t, files, i);
    } else {
      FilesKeepPaths(t, files);
    }
  }

  ghost predicate NoStray(p: Payload) {
    p.value.Some? ==> forall f <- ParsePatch(p.value.value) :: !Stray(f)
  }

  /** A base folded from patches without such files holds valid paths only. */
  lemma {:induction false} FoldKeepsPaths(b: Base, ps: seq<Payload>)
    requires ValidPaths(b.tree) && forall i :: 0 <= i < |ps| ==> NoStray(ps[i])
    ensures ValidPaths(FoldFrom(b, ps).tree)
    decreases |ps|
  {
    hide ValidPaths, ApplyPatch, ParsePatch, Stray;
    if ps != [] {
      var p := ps[0];
      if Verdict(b.tree, p).Ok? {
        PathsStayIffNoStray(b.tree, ParsePatch(p.value.value));
      }
      FoldKeepsPaths(FoldOne(b, p), ps[1..]);
    }
  }

  // ------------------------------------------------------------- the whole way

  function BuildText(diff: (Text, Text) -> seq<Hunk>, newSide: Hunk -> Text, base: Tree, after: Tree, renames: Tree): Option<Text> {
    match BuildPatch(diff, base, after, renames)
    case None => None
    case Some(files) => Some(PatchBytes(newSide, files))
  }

  /** A text the line reader gives back, no longer than a machine can count. */
  predicate PlainText(t: Text) {
    CR !in t && |t| <= U64_MAX
  }

  /** Hunks of plain texts hold plain lines. */
  ghost predicate Prints(diff: (Text, Text) -> seq<Hunk>, newSide: Hunk -> Text) {
    forall a, b :: PlainText(a) && PlainText(b) ==> forall h <- diff(a, b) :: PlainHunk(newSide, h)
  }

  ghost predicate PlainTree(t: Tree) {
    forall p <- t :: Plain(p) && PlainText(t[p])
  }

  function NoNewSide(h: Hunk): Text {
    []
  }

  lemma MarkedIsPlain(op: char, s: Text)
    requires op in {'-', '+'} && PlainText(s)
    ensures var ls := Marked(op, ToElements(s)); |ls| <= |s| && forall i :: 0 <= i < |ls| ==> PlainLine(ls[i])
  {
    hide ToElements, Marked;
    var es := ToElements(s);
    ElementsAreLines(s);
    ElementsWithin(s);
    var ls := Marked(op, es);
    forall i | 0 <= i < |ls|
      ensures PlainLine(ls[i])
    {
      assert IsLine(es[i]);
      LineIsPlainText(op, es[i]);
    }
  }

  lemma LineIsPlainText(op: char, e: Text)
    requires op in {'-', '+'} && IsLine(e) && CR !in e
    ensures PlainLine(Context(e).(op := op))
  {
    var n := |e| - 1;
    assert e == e[..n] + [e[n]];
  }

  lemma {:induction false} OldSideShorter(ls: seq<HunkLine>)
    ensures |OldSide(ls)| <= |ls|
  {
    if ls != [] { OldSideShorter(ls[1..]); }
  }

  lemma WholeHunkIsPlain(a: Text, b: Text)
    requires PlainText(a) && PlainText(b)
    ensures PlainHunk(NoNewSide, WholeDiff(a, b)[0])
  {
    hide Marked, OldSide, ToElements, PlainLine;
    MarkedIsPlain('-', a);
    MarkedIsPlain('+', b);
    var gone, come := Marked('-', ToElements(a)), Marked('+', ToElements(b));
    var al := gone + come;
    assert al[..0] == [] && al[0..|al|] == al;
    OldSideShorter([]);
    SidesJoin(gone, come);
    MarkedSides('+', ToElements(b));
    OldSideShorter(gone);
    assert |OldSide(al)| <= |a|;
  }

  /** A differ that meets everything asked of one. */
  lemma DifferExists()
    ensures Aligner(WholeDiff) && Prints(WholeDiff, NoNewSide)
  {
    hide IsDiff, WholeDiff, PlainHunk, PlainText;
    forall a, b
      ensures IsDiff(a, b, WholeDiff(a, b))
    {
      WholeDiffAligns(a, b);
    }
    forall a, b | PlainText(a) && PlainText(b)
      ensures forall h <- WholeDiff(a, b) :: PlainHunk(NoNewSide, h)
    {
      WholeHunkIsPlain(a, b);
      OneHunk(a, b);
    }
  }

  lemma OneHunk(a: Text, b: Text)
    ensures |WholeDiff(a, b)| == 1
  {
  }

  lemma FileOfIsPlain(
    diff: (Text, Text) -> seq<Hunk>, newSide: Hunk -> Text, base: Tree, after: Tree, renames: Tree, c: Change)
    requires Prints(diff, newSide) && PlainTree(base) && PlainTree(after) && IsChange(base, after, renames, c)
    ensures PlainFile(newSide, FileOf(diff, c))
  {
    hide PlainHunk, Plain, Consumed, Source, PlainText;
    assert PlainText([]) by { EmptyIsPlainText(); }
    assert forall p <- Names(c) :: p in base || p in after;
    match c
    case Added(p, t) => assert forall h <- diff([], t) :: PlainHunk(newSide, h);
    case Deleted(p, t) => assert forall h <- diff(t, []) :: PlainHunk(newSide, h);
    case Edited(o, n, b, t) => assert forall h <- diff(b, t) :: PlainHunk(newSide, h);
  }

  lemma EmptyIsPlainText()
    ensures PlainText([])
  {
  }

  /** What the reader makes of the printed changeset. */
  lemma TextIsRead(
    diff: (Text, Text) -> seq<Hunk>, newSide: Hunk -> Text, base: Tree, after: Tree, renames: Tree)
    requires Prints(diff, newSide) && PlainTree(base) && PlainTree(after)
    ensures var built, text := BuildPatch(diff, base, after, renames), BuildText(diff, newSide, base, after, renames);
            if built.None? then text.None? else text.Some? && ParsePatch(text.value) == AllBack(built.value)
  {
    hide Prints, PlainTree, IsChange, Changes, PlainFile, FileOf, ParsePatch, PatchBytes, KeysDiffer, AllBack;
    var cs := Changes(base, after, renames);
    ChangesAre(base, after, renames);
    var files := FilesOf(diff, cs);
    forall i | 0 <= i < |files|
      ensures PlainFile(newSide, files[i])
    {
      assert cs[i] in cs;
      FileOfIsPlain(diff, newSide, base, after, renames, cs[i]);
    }
    ParseOfPrint(newSide, files);
  }

  // ---------------------------------------------------------------- split paths

  /** A change whose header does not give its path back. */
  ghost predicate IsSplit(c: Change) {
    !Moving(c) && exists j: nat :: SepAt(Key(c), j)
  }

  /** No change but a moving rename has " b/" in its path. */
  ghost predicate SplitFree(base: Tree, after: Tree, renames: Tree) {
    forall c :: IsChange(base, after, renames, c) ==> !IsSplit(c)
  }

  /** How one change is read back. */
  lemma ChangeReadsBack(diff: (Text, Text) -> seq<Hunk>, c: Change)
    ensures !IsSplit(c) ==> ReadBack(FileOf(diff, c)) == FileOf(diff, c)
    ensures !Blank(ReadBack(FileOf(diff, c)))
    ensures IsSplit(c) ==>
              var f := ReadBack(FileOf(diff, c));
              |f.oldPath| > |Key(c)| && forall j: nat :: !SepAt(f.newPath, j)
  {
    hide Header, SepAt;
    var f := FileOf(diff, c);
    if !Moving(c) {
      assert f.oldPath == f.newPath == Key(c) && !f.renamed;
      HeaderSplits(Key(c), Key(c));
      if IsSplit(c) {
        var j: nat :| SepAt(Key(c), j);
        SplitNames(Key(c), j);
      }
    }
  }

  lemma BackCarriesMoves(diff: (Text, Text) -> seq<Hunk>, cs: seq<Change>)
    ensures CarriesMoves(diff, cs, AllBack(FilesOf(diff, cs)))
    ensures (forall i :: 0 <= i < |cs| ==> !IsSplit(cs[i])) ==> AllBack(FilesOf(diff, cs)) == FilesOf(diff, cs)
  {
    hide ReadBack, FileOf, Blank;
    forall i | 0 <= i < |cs|
      ensures !Blank(ReadBack(FileOf(diff, cs[i])))
      ensures !IsSplit(cs[i]) ==> ReadBack(FileOf(diff, cs[i])) == FileOf(diff, cs[i])
    {
      ChangeReadsBack(diff, cs[i]);
    }
  }

  lemma {:induction false} ShortestSplit(cs: seq<Change>) returns (i: nat)
    requires exists k :: 0 <= k < |cs| && IsSplit(cs[k])
    ensures i < |cs| && IsSplit(cs[i])
    ensures forall k :: 0 <= k < |cs| && IsSplit(cs[k]) ==> |Key(cs[i])| <= |Key(cs[k])|
  {
    hide IsSplit, Key;
    var n := |cs| - 1;
    if k :| 0 <= k < n && IsSplit(cs[k]) {
      assert cs[..n][k] == cs[k];
      i := ShortestSplit(cs[..n]);
      assert cs[..n][i] == cs[i];
      if IsSplit(cs[n]) && |Key(cs[n])| < |Key(cs[i])| { i := n; }
      assert forall k :: 0 <= k < n ==> cs[..n][k] == cs[k];
    } else {
      i := n;
    }
  }

  /** Nothing that is read back names the shortest split path. */
  lemma SplitIsUnnamed(
    diff: (Text, Text) -> seq<Hunk>, base: Tree, after: Tree, renames: Tree, c: Change, d: Change)
    requires ValidPaths(base) && ValidPaths(after) && Clean(base, after, renames)
    requires IsChange(base, after, renames, c) && IsChange(base, after, renames, d)
    requires IsSplit(c) && (c == d || Key(c) != Key(d)) && (IsSplit(d) ==> |Key(c)| <= |Key(d)|)
    ensures Key(c) !in Touched(ReadBack(FileOf(diff, d)))
  {
    hide ReadBack, FileOf, IsChange, ValidPaths, Clean, SepAt;
    ChangeReadsBack(diff, d);
    if !IsSplit(d) {
      ChangesApart(base, after, renames, c, d);
      NamesAreTouched(diff, base, after, renames, d);
    }
  }

  /** Under clean renames a change that does not move differs in its path's entry. */
  lemma ChangeDiffers(base: Tree, after: Tree, renames: Tree, c: Change)
    requires Clean(base, after, renames) && IsChange(base, after, renames, c) && !Moving(c)
    ensures At(base, Key(c)) != At(after, Key(c))
  {
    hide Clean, Consumed;
    if c.Added? { FreeAgain(base, after, renames, c.path); }
  }

  /** With a split change the patch that is read back does not give the new side. */
  lemma SplitLosesChange(diff: (Text, Text) -> seq<Hunk>, base: Tree, after: Tree, renames: Tree)
    requires ValidPaths(base) && ValidPaths(after) && Clean(base, after, renames) && !SplitFree(base, after, renames)
    ensures ApplyPatch(base, AllBack(FilesOf(diff, Changes(base, after, renames)))) != Ok(after)
  {
    hide ValidPaths, Clean, Changes, IsChange, IsSplit, ReadBack, FileOf, ApplyPatch, Touched, Key, NoBlank, At;
    var cs := Changes(base, after, renames);
    ChangesAre(base, after, renames);
    var w :| IsChange(base, after, renames, w) && IsSplit(w);
    assert w in cs;
    var i := ShortestSplit(cs);
    var c, p, files := cs[i], Key(cs[i]), AllBack(FilesOf(diff, cs));
    assert c in cs;
    forall k | 0 <= k < |files|
      ensures p !in Touched(files[k])
    {
      assert cs[k] in cs;
      if k != i { assert i < k ==> Key(cs[i]) != Key(cs[k]); assert k < i ==> Key(cs[k]) != Key(cs[i]); }
      SplitIsUnnamed(diff, base, after, renames, c, cs[k]);
    }
    TouchedByOne(files, p);
    BackCarriesMoves(diff, cs);
    SplitDiffers(base, after, renames, c);
    if ApplyPatch(base, files).Ok? { PatchFrame(base, files); }
  }

  lemma SplitDiffers(base: Tree, after: Tree, renames: Tree, c: Change)
    requires Clean(base, after, renames) && IsChange(base, after, renames, c) && IsSplit(c)
    ensures At(base, Key(c)) != At(after, Key(c))
  {
    ChangeDiffers(base, after, renames, c);
  }

  /** Folding the printed changeset onto the base gives the new side, exactly if renames are clean and no other change has " b/" in its path. */
  lemma EmittedTextFolds(
    diff: (Text, Text) -> seq<Hunk>, newSide: Hunk -> Text, base: Tree, rev: nat, after: Tree, renames: Tree)
    requires Aligner(diff) && Prints(diff, newSide)
    requires ValidPaths(base) && ValidPaths(after) && PlainTree(base) && PlainTree(after)
    ensures var text := BuildText(diff, newSide, base, after, renames);
            if text.None? then base == after
            else
              FoldOne(Base(base, rev), Payload(Some(WIKI_PATCH), text)) == Base(after, rev + 1)
              <==> Clean(base, after, renames) && SplitFree(base, after, renames)
  {
    hide Aligner, Prints, ValidPaths, PlainTree, Clean, BuildText, ParsePatch, ApplyPatch, IsChange, IsSplit, Changes, FileOf, KeysDiffer, CarriesMoves, AllBack;
    TextIsRead(diff, newSide, base, after, renames);
    NoPatchIffSame(diff, base, after, renames);
    var cs := Changes(base, after, renames);
    ChangesAre(base, after, renames);
    var files := FilesOf(diff, cs);
    BackCarriesMoves(diff, cs);
    if ApplyPatch(base, AllBack(files)) == Ok(after) {
      AppliedIsClean(diff, base, after, renames, AllBack(files));
      if !SplitFree(base, after, renames) { SplitLosesChange(diff, base, after, renames); }
    }
    if Clean(base, after, renames) && SplitFree(base, after, renames) {
      assert forall i :: 0 <= i < |cs| ==> cs[i] in cs;
      RoundTripsIffClean(diff, base, after, renames);
    }
  }

  const SPLIT_PATH: Text := [97, SPACE, 98, SLASH, 99]
  const LONG_PATH: Text := SPLIT_PATH + SEP + [97]
  const LAST_PATH: Text := [99]

  lemma SplitPathsAreValid()
    ensures ValidPath(SPLIT_PATH) && ValidPath(LONG_PATH) && ValidPath(LAST_PATH)
  {
    hide ValidPath;
    var ab, cb, a: Text := [97, SPACE, 98], [99, SPACE, 98], [97];
    SegmentIs(ab);
    SegmentIs(cb);
    SegmentIs(a);
    SegmentIs(LAST_PATH);
    assert GoodSegments([ab, LAST_PATH]) && GoodSegments([ab, cb, a]) && GoodSegments([LAST_PATH]);
    JoinOfMany([ab, LAST_PATH]);
    JoinOfMany([ab, cb, a]);
    JoinOfMany([cb, a]);
    JoinOfOne(LAST_PATH);
    JoinOfOne(a);
    assert [ab, LAST_PATH][1..] == [LAST_PATH] && [ab, cb, a][1..] == [cb, a] && [cb, a][1..] == [a];
    hide Join, GoodSegments;
    assert Join([ab, LAST_PATH]) == SPLIT_PATH;
    assert Join([ab, cb, a]) == ab + [SLASH] + (cb + [SLASH] + a) == LONG_PATH;
    ValidIffSegments(SPLIT_PATH);
    ValidIffSegments(LONG_PATH);
    ValidIffSegments(LAST_PATH);
  }

  lemma SplitHeader()
    ensures Header(SPLIT_PATH + SEP + SPLIT_PATH) == PatchFile(LONG_PATH, LAST_PATH, false, false, false, [])
  {
    hide LastSep;
    var s := SPLIT_PATH + SEP + SPLIT_PATH;
    assert |s| == 13 && SepAt(s, 9);
    var k := LastSep(s).value;
    assert !SepAt(s, 10);
    assert k == 9;
    assert s[..9] == LONG_PATH && s[12..] == LAST_PATH;
  }

  /** The one file printed for a new empty document under "a b/c". */
  lemma SplitChange()
    ensures Changes(map[], map[SPLIT_PATH := []], map[]) == [Added(SPLIT_PATH, [])]
  {
    hide Changes;
    var base, after, renames: Tree := map[], map[SPLIT_PATH := []], map[];
    var cs, c := Changes(base, after, renames), Added(SPLIT_PATH, []);
    ChangesAre(base, after, renames);
    assert IsChange(base, after, renames, c);
    assert c in cs;
    var second := if |cs| > 1 then Key(cs[1]) else [];
    assert |cs| > 1 ==> Key(cs[0]) != second;
    forall i | 0 <= i < |cs|
      ensures cs[i] == c
    {
      assert cs[i] in cs;
      assert IsChange(base, after, renames, cs[i]);
    }
  }

  /** Adding an empty document "a b/c" by the printed patch creates a document "c" instead. */
  lemma SplitIsMisplaced(rev: nat)
    ensures var after: Tree := map[SPLIT_PATH := []];
            var text := BuildText(WholeDiff, NoNewSide, map[], after, map[]);
            && text.Some? && Clean(map[], after, map[])
            && FoldOne(Base(map[], rev), Payload(Some(WIKI_PATCH), text)) == Base(map[LAST_PATH := []], rev + 1)
  {
    hide Changes, WholeDiff, ParsePatch, Prints, Aligner, ValidPath, Header, PatchBytes, ApplyHunks, IsDiff;
    var base, after, renames: Tree := map[], map[SPLIT_PATH := []], map[];
    DifferExists();
    SplitChange();
    SplitHeader();
    SplitPathsAreValid();
    TextIsRead(WholeDiff, NoNewSide, base, after, renames);
    WholeDiffAligns([], []);
    AppliesIffDiff([], [], WholeDiff([], []));
    var f := PatchFile(LONG_PATH, LAST_PATH, true, false, false, WholeDiff([], []));
    assert AllBack(FilesOf(WholeDiff, [Added(SPLIT_PATH, [])])) == [f];
    assert ApplyFile(base, f) == Ok(map[LAST_PATH := []]);
    AloneApplies(base, f);
  }

  /** A patch of one file is that file. */
  lemma AloneApplies(t: Tree, f: PatchFile)
    ensures ApplyPatch(t, [f]) == ApplyFile(t, f)
  {
    hide ApplyFile;
    assert [f][1..] == [];
    assert FirstRepeat([f], {}) == None;
    assert ApplyFiles(t, [f]) == if ApplyFile(t, f).Err? then ApplyFile(t, f) else ApplyFiles(ApplyFile(t, f).value, []);
  }

  // -------------------------------------------------- the empty path is reachable

  lemma BlankPatchPrints(newSide: Hunk -> Text)
    ensures ParsePatch(PatchBytes(newSide, BLANK_PATCH)) == BLANK_PATCH
  {
    hide ParsePatch, PatchBytes;
    var f := BLANK_PATCH[0];
    assert PlainFile(newSide, f);
    assert forall j: nat :: !SepAt(f.newPath, j);
    ParseIsInverse(newSide, BLANK_PATCH);
  }

  /** One printable payload puts an entry under the empty path into the base. */
  lemma BlankIsReachable(newSide: Hunk -> Text)
    ensures [] in WikiFold([Payload(Some(WIKI_PATCH), Some(PatchBytes(newSide, BLANK_PATCH)))]).tree
  {
    hide ParsePatch, PatchBytes, ValidPath;
    BlankPatchPrints(newSide);
    LetterIsValid();
    var p := Payload(Some(WIKI_PATCH), Some(PatchBytes(newSide, BLANK_PATCH)));
    assert [p][1..] == [];
    var none: Tree := map[];
    var f := BLANK_PATCH[0];
    assert BLANK_PATCH[1..] == [];
    assert TakeHunks(ToElements([]), [], Progress(0, [])).Ok?;
    assert FirstRepeat(BLANK_PATCH, {}) == None;
    assert ApplyFile(none, f).Ok? && [] in ApplyFile(none, f).value;
    assert ApplyFiles(none, BLANK_PATCH) == ApplyFiles(ApplyFile(none, f).value, BLANK_PATCH[1..]);
    assert FoldOne(Base(none, 0), p).tree == ApplyFile(none, f).value;
    assert FoldFrom(Base(none, 0), [p]) == FoldFrom(FoldOne(Base(none, 0), p), [p][1..]);
  }
}
