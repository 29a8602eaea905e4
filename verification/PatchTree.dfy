/**
 A whole patch over the wiki tree, all or nothing. Its verdict and its effect
 depend only on the paths it names, with one exception that is pinned down:
 a file marked both added and deleted whose new path is empty.
 */
module PatchTree {
  import opened Prelude
  import opened Bytes
  import opened PatchHunks
  import opened Wiki
  import opened Sorting

  datatype PatchFile = PatchFile(
    oldPath: Text, newPath: Text, added: bool, deleted: bool, renamed: bool, hunks: seq<Hunk>)

  datatype Reason =
    | EmptyPatch
    | TouchedTwice(path: Text)
    | InvalidPath(path: Text)
    | AlreadyExists(path: Text)
    | Missing(path: Text)
    | DeletionLeaves(path: Text)
    | TargetExists(path: Text)
    | BadHunks(fault: Fault)

  // --------------------------------------------------------------------- paths

  const SLASH: byte := 47
  const DOT: byte := 46
  const BACKSLASH: byte := 92

  function Split(p: Text): (r: seq<Text>)
    ensures r != []
  {
    if p == [] then [[]]
    else
      var r := Split(p[1..]);
      if p[0] == SLASH then [[]] + r else [[p[0]] + r[0]] + r[1..]
  }

  predicate GoodSegment(s: Text) {
    s != [] && s != [DOT] && s != [DOT, DOT] && BACKSLASH !in s
  }

  predicate ValidPath(p: Text) {
    && p != [] && p[0] != SLASH && p[|p| - 1] != SLASH
    && |Split(p)| <= 8 && forall i :: 0 <= i < |Split(p)| ==> GoodSegment(Split(p)[i])
  }

  function Join(segments: seq<Text>): Text {
    if segments == [] then []
    else if |segments| == 1 then segments[0]
    else segments[0] + [SLASH] + Join(segments[1..])
  }

  lemma {:induction false} SplitHasNoSlash(p: Text)
    ensures forall i :: 0 <= i < |Split(p)| ==> SLASH !in Split(p)[i]
  {
    if p != [] {
      SplitHasNoSlash(p[1..]);
    }
  }

  lemma JoinOfMany(s: seq<Text>)
    requires |s| > 1
    ensures Join(s) == s[0] + [SLASH] + Join(s[1..])
  {
  }

  lemma JoinSlash(r: seq<Text>)
    requires r != []
    ensures Join([[]] + r) == [SLASH] + Join(r)
  {
    hide Join;
    var s: seq<Text> := [[]] + r;
    JoinOfMany(s);
    assert s[1..] == r && s[0] == [] && s[0] + [SLASH] == [SLASH];
  }

  lemma JoinHead(c: byte, r: seq<Text>)
    requires r != []
    ensures Join([[c] + r[0]] + r[1..]) == [c] + Join(r)
  {
    hide Join;
    var s := [[c] + r[0]] + r[1..];
    if |r| == 1 {
      assert r == [r[0]] && s == [[c] + r[0]];
      JoinOfOne(r[0]);
      JoinOfOne([c] + r[0]);
    } else {
      JoinOfMany(s);
      JoinOfMany(r);
      var rest := Join(r[1..]);
      assert s[1..] == r[1..] && s[0] == [c] + r[0];
      assert [c] + r[0] + [SLASH] + rest == [c] + (r[0] + [SLASH] + rest);
    }
  }

  lemma {:induction false} JoinOfSplit(p: Text)
    ensures Join(Split(p)) == p
  {
    hide Join;
    if p == [] {
      JoinOfOne([]);
    } else {
      JoinOfSplit(p[1..]);
      JoinSlash(Split(p[1..]));
      JoinHead(p[0], Split(p[1..]));
      assert p == [p[0]] + p[1..];
    }
  }

  lemma JoinOfOne(s: Text)
    ensures Join([s]) == s
  {
  }

  lemma {:induction false} SplitOfSegment(s: Text, rest: Text)
    requires SLASH !in s
    ensures Split(s) == [s]
    ensures Split(s + [SLASH] + rest) == [s] + Split(rest)
  {
    if s == [] {
      assert (s + [SLASH] + rest)[1..] == rest;
    } else {
      SplitOfSegment(s[1..], rest);
      assert (s + [SLASH] + rest)[1..] == s[1..] + [SLASH] + rest;
      assert [s[0]] + s[1..] == s;
    }
  }

  lemma {:induction false} SplitOfJoin(segments: seq<Text>)
    requires segments != [] && forall i :: 0 <= i < |segments| ==> SLASH !in segments[i]
    ensures Split(Join(segments)) == segments
  {
    if |segments| == 1 {
      SplitOfSegment(segments[0], []);
    } else {
      SplitOfJoin(segments[1..]);
      SplitOfSegment(segments[0], Join(segments[1..]));
    }
  }

  /** Neither empty, nor "." or "..", nor with a slash or backslash in it. */
  ghost predicate IsSegment(s: Text) {
    s != [] && s != Word(".") && s != Word("..") && '/' as int !in s && '\\' as int !in s
  }

  lemma SegmentIs(s: Text)
    ensures IsSegment(s) <==> SLASH !in s && GoodSegment(s)
  {
    assert Word(".") == [46] && Word("..") == [46, 46];
  }

  /** One to eight segments. */
  ghost predicate GoodSegments(segments: seq<Text>) {
    1 <= |segments| <= 8 && forall i :: 0 <= i < |segments| ==> IsSegment(segments[i])
  }

  /** A path is valid exactly if it is good segments joined by slashes. */
  lemma ValidIffSegments(p: Text)
    ensures ValidPath(p) <==> exists segments :: GoodSegments(segments) && p == Join(segments)
  {
    forall s
      ensures IsSegment(s) <==> SLASH !in s && GoodSegment(s)
    {
      SegmentIs(s);
    }
    hide Split, Join, GoodSegment, IsSegment;
    JoinOfSplit(p);
    SplitHasNoSlash(p);
    if ValidPath(p) {
      assert GoodSegments(Split(p)) && p == Join(Split(p));
    }
    if segments :| GoodSegments(segments) && p == Join(segments) {
      SplitOfJoin(segments);
      GoodAreFilled(segments);
      EndsMatch(segments);
    }
  }

  lemma GoodAreFilled(segments: seq<Text>)
    requires GoodSegments(segments)
    ensures forall i :: 0 <= i < |segments| ==> SLASH !in segments[i] && segments[i] != []
  {
  }

  /** A join of non-empty slash-free segments neither begins nor ends with a slash. */
  lemma {:induction false} EndsMatch(segments: seq<Text>)
    requires segments != [] && forall i :: 0 <= i < |segments| ==> SLASH !in segments[i] && segments[i] != []
    ensures var p := Join(segments); p != [] && p[0] != SLASH && p[|p| - 1] != SLASH
  {
    if |segments| > 1 { EndsMatch(segments[1..]); }
  }

  // ------------------------------------------------------------------ one file

  function ApplyFile(work: Tree, f: PatchFile): (r: Result<Tree, Reason>) {
    if !ValidPath(f.newPath) && !f.deleted then Err(InvalidPath(f.newPath))
    else if !ValidPath(f.oldPath) then Err(InvalidPath(f.oldPath))
    else if f.added then
      if f.newPath in work then Err(AlreadyExists(f.newPath))
      else
        match ApplyHunks([], f.hunks)
        case Err(e) => Err(BadHunks(e))
        case Ok(content) => Ok(work[f.newPath := content])
    else if f.oldPath !in work then Err(Missing(f.oldPath))
    else
      var text, rest := work[f.oldPath], work - {f.oldPath};
      if f.deleted then
        match ApplyHunks(text, f.hunks)
        case Err(e) => Err(BadHunks(e))
        case Ok(left) => if left != [] then Err(DeletionLeaves(f.oldPath)) else Ok(rest)
      else if f.renamed && f.newPath in rest then Err(TargetExists(f.newPath))
      else
        match ApplyHunks(text, f.hunks)
        case Err(e) => Err(BadHunks(e))
        case Ok(content) => Ok(rest[f.newPath := content])
  }

  /** One file turns `t` into `u`, said through alignments. */
  ghost predicate FileTurns(t: Tree, f: PatchFile, u: Tree) {
    && ValidPath(f.oldPath) && (ValidPath(f.newPath) || f.deleted)
    && if f.added then
         f.newPath !in t && f.newPath in u && IsDiff([], u[f.newPath], f.hunks) && u == t[f.newPath := u[f.newPath]]
       else
         && f.oldPath in t
         && if f.deleted then IsDiff(t[f.oldPath], [], f.hunks) && u == t - {f.oldPath}
            else
              && (f.renamed && f.newPath != f.oldPath ==> f.newPath !in t)
              && f.newPath in u && IsDiff(t[f.oldPath], u[f.newPath], f.hunks)
              && u == (t - {f.oldPath})[f.newPath := u[f.newPath]]
  }

  /** A file applies exactly when its hunks align the old text with the one it leaves: all of it for a creation, none for a deletion. */
  lemma FileApplies(t: Tree, f: PatchFile, u: Tree)
    ensures ApplyFile(t, f) == Ok(u) <==> FileTurns(t, f, u)
  {
    hide ApplyHunks, IsDiff, ValidPath;
    var text := if !f.added && f.oldPath in t then t[f.oldPath] else [];
    AppliesIffDiff(text, [], f.hunks);
    if f.newPath in u { AppliesIffDiff(text, u[f.newPath], f.hunks); }
  }

  /** What a file's hunks apply to. */
  function TextBefore(t: Tree, f: PatchFile): Text {
    if !f.added && f.oldPath in t then t[f.oldPath] else []
  }

  /** What a refused file says of itself holds. */
  ghost predicate IsTrueOfFile(t: Tree, f: PatchFile, r: Reason) {
    match r
    case InvalidPath(p) => !ValidPath(p) && (p == f.oldPath || (p == f.newPath && !f.deleted))
    case AlreadyExists(p) => f.added && p == f.newPath && p in t
    case Missing(p) => !f.added && p == f.oldPath && p !in t
    case TargetExists(p) => f.renamed && p == f.newPath && p != f.oldPath && p in t
    case DeletionLeaves(p) => f.deleted && p == f.oldPath && p in t && exists left :: left != [] && IsDiff(t[p], left, f.hunks)
    case BadHunks(e) =>
      (f.added || f.oldPath in t) && exists k :: FailsAt(TextBefore(t, f), f.hunks, k, e)
    case _ => false
  }

  lemma FileReasonIsTrue(t: Tree, f: PatchFile)
    ensures ApplyFile(t, f).Err? ==> IsTrueOfFile(t, f, ApplyFile(t, f).error)
  {
    hide ApplyHunks, IsDiff, ValidPath, FailsAt;
    var was := TextBefore(t, f);
    FaultIsTrue(was, f.hunks);
    var r := ApplyHunks(was, f.hunks);
    if r.Ok? { AppliesIffDiff(was, r.value, f.hunks); }
  }

  function ApplyFiles(work: Tree, files: seq<PatchFile>): (r: Result<Tree, Reason>)
    decreases |files|
  {
    if files == [] then Ok(work)
    else
      match ApplyFile(work, files[0])
      case Err(e) => Err(e)
      case Ok(next) => ApplyFiles(next, files[1..])
  }

  // ----------------------------------------------------------- the paths named

  function Touched(f: PatchFile): set<Text> {
    {f.oldPath, f.newPath} - {[]}
  }

  /** The file names this path, on either side. */
  ghost predicate NamesPath(f: PatchFile, p: Text) {
    p != [] && (p == f.oldPath || p == f.newPath)
  }

  function TouchedPaths(files: seq<PatchFile>): set<Text> {
    if files == [] then {} else Touched(files[0]) + TouchedPaths(files[1..])
  }

  method RunTouchedPaths(files: seq<PatchFile>) returns (out: set<Text>)
    ensures out == TouchedPaths(files)
    ensures forall p :: p in out <==> exists i :: 0 <= i < |files| && NamesPath(files[i], p)
  {
    forall p
      ensures p in TouchedPaths(files) <==> exists i :: 0 <= i < |files| && NamesPath(files[i], p)
    {
      TouchedByOne(files, p);
    }
    out := {};
    for i := 0 to |files|
      invariant out + TouchedPaths(files[i..]) == TouchedPaths(files)
    {
      assert files[i..][1..] == files[i + 1..];
      if files[i].oldPath != [] {
        out := out + {files[i].oldPath};
      }
      if files[i].newPath != [] {
        out := out + {files[i].newPath};
      }
    }
  }

  lemma {:induction false} TouchedByOne(files: seq<PatchFile>, p: Text)
    ensures p in TouchedPaths(files) <==> exists i :: 0 <= i < |files| && p in Touched(files[i])
    ensures forall f :: p in Touched(f) <==> NamesPath(f, p)
  {
    if files != [] {
      TouchedByOne(files[1..], p);
      assert forall i :: 1 <= i < |files| ==> files[i] == files[1..][i - 1];
      if i :| 0 <= i < |files[1..]| && p in Touched(files[1..][i]) {
        assert p in Touched(files[i + 1]);
      }
    }
  }

  /** The first path named by two files, in the order they are met. */
  function FirstRepeat(files: seq<PatchFile>, touched: set<Text>): (r: Option<Text>)
    decreases |files|
  {
    if files == [] then None
    else
      var f := files[0];
      if f.oldPath != [] && f.oldPath in touched then Some(f.oldPath)
      else if f.newPath != [] && f.newPath != f.oldPath && f.newPath in touched then Some(f.newPath)
      else FirstRepeat(files[1..], touched + Touched(f))
  }

  ghost predicate OneVoice(files: seq<PatchFile>) {
    forall i, j :: 0 <= i < j < |files| ==> Touched(files[i]) !! Touched(files[j])
  }

  lemma {:induction false} RepeatFrom(files: seq<PatchFile>, touched: set<Text>)
    ensures FirstRepeat(files, touched).None? <==> OneVoice(files) && TouchedPaths(files) !! touched
    decreases |files|
  {
    if files != [] {
      var f, rest := files[0], files[1..];
      RepeatFrom(rest, touched + Touched(f));
      assert files == [f] + rest;
      assert OneVoice(files) ==> OneVoice(rest);
      if FirstRepeat(files, touched).None? || OneVoice(files) {
        forall i | 0 <= i < |rest|
          ensures Touched(rest[i]) <= TouchedPaths(rest)
        {
          forall p | p in Touched(rest[i])
            ensures p in TouchedPaths(rest)
          {
            TouchedByOne(rest, p);
          }
        }
      }
      if OneVoice(files) {
        forall p | p in Touched(f)
          ensures p !in TouchedPaths(rest)
        {
          TouchedByOne(rest, p);
          assert forall i :: 0 <= i < |rest| ==> rest[i] == files[i + 1];
        }
      }
    }
  }

  ghost predicate IsRepeat(files: seq<PatchFile>, p: Text) {
    exists i, j :: 0 <= i < j < |files| && NamesPath(files[i], p) && NamesPath(files[j], p)
  }

  lemma {:induction false} RepeatIsNamed(files: seq<PatchFile>, k: nat, touched: set<Text>)
    requires k <= |files| && forall p :: p in touched ==> exists i :: 0 <= i < k && NamesPath(files[i], p)
    ensures FirstRepeat(files[k..], touched).Some? ==> IsRepeat(files, FirstRepeat(files[k..], touched).value)
    decreases |files| - k
  {
    if k < |files| {
      var f := files[k];
      assert files[k..][1..] == files[k + 1..];
      forall p | p in touched && NamesPath(f, p)
        ensures IsRepeat(files, p)
      {
      }
      RepeatIsNamed(files, k + 1, touched + Touched(f));
    }
  }

  /** A repeat is reported exactly when two files name one path, and the path reported is one. */
  lemma RepeatIsCollision(files: seq<PatchFile>)
    ensures FirstRepeat(files, {}).None? <==> OneVoice(files)
    ensures OneVoice(files) <==> forall p :: !IsRepeat(files, p)
    ensures FirstRepeat(files, {}).Some? ==> IsRepeat(files, FirstRepeat(files, {}).value)
  {
    RepeatFrom(files, {});
    assert files[0..] == files;
    RepeatIsNamed(files, 0, {});
    assert forall f, p :: p in Touched(f) <==> NamesPath(f, p);
    forall i, j | 0 <= i < j < |files| && forall p :: !IsRepeat(files, p)
      ensures Touched(files[i]) !! Touched(files[j])
    {
      forall p
        ensures p in Touched(files[i]) && p in Touched(files[j]) ==> IsRepeat(files, p)
      {
      }
    }
    forall p | IsRepeat(files, p)
      ensures !OneVoice(files)
    {
      var i, j :| 0 <= i < j < |files| && NamesPath(files[i], p) && NamesPath(files[j], p);
      assert p in Touched(files[i]) * Touched(files[j]);
    }
  }

  /** A whole patch, or nothing. */
  function ApplyPatch(tree: Tree, files: seq<PatchFile>): (r: Result<Tree, Reason>) {
    if files == [] then Err(EmptyPatch)
    else
      match FirstRepeat(files, {})
      case Some(p) => Err(TouchedTwice(p))
      case None => ApplyFiles(tree, files)
  }

  /** The files before `i` apply, and of file `i` the reason is true. */
  ghost predicate FileFailsAt(t: Tree, files: seq<PatchFile>, i: int, r: Reason) {
    0 <= i < |files| && var before := ApplyFiles(t, files[..i]); before.Ok? && IsTrueOfFile(before.value, files[i], r)
  }

  lemma {:induction false} FilesReasonIsTrue(t: Tree, files: seq<PatchFile>)
    ensures ApplyFiles(t, files).Err? ==> exists i :: FileFailsAt(t, files, i, ApplyFiles(t, files).error)
    decreases |files|
  {
    hide ApplyFile, IsTrueOfFile;
    if files != [] {
      FileReasonIsTrue(t, files[0]);
      assert files[..0] == [];
      var next := ApplyFile(t, files[0]);
      if next.Err? {
        assert FileFailsAt(t, files, 0, next.error);
      } else if ApplyFiles(t, files).Err? {
        FilesReasonIsTrue(next.value, files[1..]);
        var r := ApplyFiles(t, files).error;
        var i :| FileFailsAt(next.value, files[1..], i, r);
        assert files[..i + 1][0] == files[0] && files[..i + 1][1..] == files[1..][..i];
        assert FileFailsAt(t, files, i + 1, r);
      }
    }
  }

  /** Every void patch is void for a reason that holds: of the patch, or of the first file that does not apply. */
  lemma PatchReasonIsTrue(t: Tree, files: seq<PatchFile>)
    ensures var r := ApplyPatch(t, files);
            r.Err? ==>
              if files == [] then r.error == EmptyPatch
              else if OneVoice(files) then exists i :: FileFailsAt(t, files, i, r.error)
              else r.error.TouchedTwice? && IsRepeat(files, r.error.path)
  {
    hide ApplyFiles, FirstRepeat, FileFailsAt, OneVoice, IsRepeat;
    RepeatIsCollision(files);
    FilesReasonIsTrue(t, files);
  }

  // ---------------------------------------------------------------- the tree

  /** The check that no path is named twice, with the source's two sets. */
  method RunFirstRepeat(files: seq<PatchFile>) returns (r: Option<Text>)
    ensures r == FirstRepeat(files, {})
  {
    var touched: set<Text> := {};
    for i := 0 to |files|
      invariant FirstRepeat(files[i..], touched) == FirstRepeat(files, {})
    {
      var f := files[i];
      assert files[i..][1..] == files[i + 1..];
      ghost var before := touched;
      var own: set<Text> := {};
      if f.oldPath != [] {
        own := own + {f.oldPath};
        if f.oldPath in touched {
          return Some(f.oldPath);
        }
        touched := touched + {f.oldPath};
      }
      if f.newPath != [] && f.newPath !in own {
        if f.newPath in touched {
          return Some(f.newPath);
        }
        touched := touched + {f.newPath};
      }
      assert touched == before + Touched(f);
    }
    return None;
  }

  class WikiTree {
    var entries: Tree

    constructor ()
      ensures entries == map[]
    {
      entries := map[];
    }

    /** Works on a copy and commits it at the end; a void patch leaves the tree as it was. */
    method Apply(files: seq<PatchFile>) returns (r: Result<(), Reason>)
      modifies this
      ensures match ApplyPatch(old(entries), files)
              case Ok(t) => r == Ok(()) && entries == t
              case Err(e) => r == Err(e) && entries == old(entries)
    {
      if files == [] {
        return Err(EmptyPatch);
      }
      var twice := RunFirstRepeat(files);
      if twice.Some? {
        return Err(TouchedTwice(twice.value));
      }
      var work := entries;
      for i := 0 to |files|
        invariant ApplyFiles(work, files[i..]) == ApplyFiles(entries, files)
        invariant entries == old(entries)
      {
        var f := files[i];
        assert files[i..][1..] == files[i + 1..];
        ghost var before := work;
        if !ValidPath(f.newPath) && !f.deleted {
          return Err(InvalidPath(f.newPath));
        }
        if !ValidPath(f.oldPath) {
          return Err(InvalidPath(f.oldPath));
        }
        if f.added {
          if f.newPath in work {
            return Err(AlreadyExists(f.newPath));
          }
          var content := RunApplyHunks([], f.hunks);
          if content.Err? {
            return Err(BadHunks(content.error));
          }
          work := work[f.newPath := content.value];
          continue;
        }
        if f.oldPath !in work {
          return Err(Missing(f.oldPath));
        }
        var text := work[f.oldPath];
        work := work - {f.oldPath};
        if f.deleted {
          var left := RunApplyHunks(text, f.hunks);
          if left.Err? {
            return Err(BadHunks(left.error));
          }
          if left.value != [] {
            return Err(DeletionLeaves(f.oldPath));
          }
          continue;
        }
        if f.renamed && f.newPath in work {
          return Err(TargetExists(f.newPath));
        }
        var content := RunApplyHunks(text, f.hunks);
        if content.Err? {
          return Err(BadHunks(content.error));
        }
        work := work[f.newPath := content.value];
      }
      entries := work;
      return Ok(());
    }
  }

  // ------------------------------------------------------------------ locality

  function At(t: Tree, p: Text): Option<Text> {
    if p in t then Some(t[p]) else None
  }

  ghost predicate AgreeOn(a: Tree, b: Tree, ps: set<Text>) {
    forall p :: p in ps ==> At(a, p) == At(b, p)
  }

  /** Outside `ps` the two trees are the same. */
  ghost predicate SameBut(a: Tree, b: Tree, ps: set<Text>) {
    forall p :: p !in ps ==> At(a, p) == At(b, p)
  }

  /** The same reason, or two results that agree on `ps`. */
  ghost predicate SameVerdict(r: Result<Tree, Reason>, s: Result<Tree, Reason>, ps: set<Text>) {
    if r.Err? then s == r else s.Ok? && AgreeOn(r.value, s.value, ps)
  }

  /** A creation of the empty path, which the path check lets through. */
  predicate Blank(f: PatchFile) {
    f.added && f.deleted && f.newPath == []
  }

  /** What one file can read or write. */
  function Reach(f: PatchFile): set<Text> {
    Touched(f) + if Blank(f) then {[]} else {}
  }

  lemma FileFrame(a: Tree, f: PatchFile)
    ensures ApplyFile(a, f).Ok? ==> SameBut(a, ApplyFile(a, f).value, Reach(f))
  {
    hide ApplyHunks;
    assert ValidPath(f.newPath) ==> f.newPath != [];
  }

  /** One file's verdict and effect are decided by what it can reach. */
  lemma FileDepends(a: Tree, b: Tree, f: PatchFile)
    requires AgreeOn(a, b, Reach(f))
    ensures SameVerdict(ApplyFile(a, f), ApplyFile(b, f), Reach(f))
  {
    hide ApplyHunks;
    if ValidPath(f.oldPath) && (ValidPath(f.newPath) || f.deleted) {
      assert f.oldPath in Reach(f);
      assert At(a, f.oldPath) == At(b, f.oldPath);
      if f.newPath != [] || Blank(f) {
        assert f.newPath in Reach(f);
        assert At(a, f.newPath) == At(b, f.newPath);
      }
    }
  }

  ghost predicate Within(files: seq<PatchFile>, ps: set<Text>) {
    forall i :: 0 <= i < |files| ==> Reach(files[i]) <= ps
  }

  lemma {:induction false} FilesLocal(a: Tree, b: Tree, files: seq<PatchFile>, ps: set<Text>)
    requires Within(files, ps) && AgreeOn(a, b, ps)
    ensures SameVerdict(ApplyFiles(a, files), ApplyFiles(b, files), ps)
    ensures ApplyFiles(a, files).Ok? ==> SameBut(a, ApplyFiles(a, files).value, ps)
    decreases |files|
  {
    hide ApplyFile, Reach, At;
    if files != [] {
      var f := files[0];
      assert AgreeOn(a, b, Reach(f));
      FileDepends(a, b, f);
      FileFrame(a, f);
      FileFrame(b, f);
      if ApplyFile(a, f).Ok? {
        var a', b' := ApplyFile(a, f).value, ApplyFile(b, f).value;
        forall p | p in ps
          ensures At(a', p) == At(b', p)
        {
          if p !in Reach(f) { assert At(a, p) == At(a', p) && At(b, p) == At(b', p) && At(a, p) == At(b, p); }
        }
        FilesLocal(a', b', files[1..], ps);
      }
    }
  }

  function Restrict(t: Tree, ps: set<Text>): Tree {
    map p | p in t && p in ps :: t[p]
  }

  /** The verdict on the smaller tree, with the entries left out put back. */
  function PutBack(r: Result<Tree, Reason>, rest: Tree): Result<Tree, Reason> {
    match r
    case Err(e) => Err(e)
    case Ok(t) => Ok(rest + t)
  }

  /** The patch decides as if the paths it does not name were not there, and leaves those as they were. */
  ghost predicate Local(tree: Tree, files: seq<PatchFile>) {
    var ps := TouchedPaths(files);
    ApplyPatch(tree, files) == PutBack(ApplyPatch(Restrict(tree, ps), files), tree - ps)
  }

  lemma {:induction false} ReachIsTouched(files: seq<PatchFile>)
    ensures Within(files, TouchedPaths(files) + {[]})
    ensures (forall i :: 0 <= i < |files| ==> !Blank(files[i])) ==> Within(files, TouchedPaths(files))
  {
    if files != [] {
      ReachIsTouched(files[1..]);
      assert forall i :: 1 <= i < |files| ==> files[i] == files[1..][i - 1];
    }
  }

  lemma LocalOn(tree: Tree, files: seq<PatchFile>, ps: set<Text>)
    requires Within(files, ps) && AgreeOn(tree, Restrict(tree, TouchedPaths(files)), ps) && TouchedPaths(files) <= ps
    ensures Local(tree, files)
  {
    hide FirstRepeat;
    var touched := TouchedPaths(files);
    var small, rest := Restrict(tree, touched), tree - touched;
    FilesLocal(tree, small, files, ps);
    FilesLocal(small, tree, files, ps);
    if ApplyFiles(tree, files).Ok? {
      var big', small' := ApplyFiles(tree, files).value, ApplyFiles(small, files).value;
      forall p: Text
        ensures At(big', p) == At(rest + small', p)
      {
        if p in ps {
          assert At(big', p) == At(small', p) && At(tree, p) == At(small, p);
        } else {
          assert At(tree, p) == At(big', p) && At(small, p) == At(small', p);
        }
      }
      SameTree(big', rest + small');
    }
  }

  lemma SameTree(a: Tree, b: Tree)
    requires forall p: Text :: At(a, p) == At(b, p)
    ensures a == b
  {
    assert forall p: Text :: p in a <==> At(a, p).Some?;
    assert forall p: Text :: p in b <==> At(b, p).Some?;
    assert a.Keys == b.Keys;
    forall p | p in a
      ensures a[p] == b[p]
    {
      assert At(a, p) == At(b, p);
    }
  }

  /** A tree without an entry under the empty path sees every patch locally. */
  lemma TreeIsLocal(tree: Tree, files: seq<PatchFile>)
    requires [] !in tree
    ensures Local(tree, files)
  {
    hide Local;
    ReachIsTouched(files);
    LocalOn(tree, files, TouchedPaths(files) + {[]});
  }

  /** A patch that does not create the empty path is local to every tree. */
  lemma PatchIsLocal(tree: Tree, files: seq<PatchFile>)
    requires forall i :: 0 <= i < |files| ==> !Blank(files[i])
    ensures Local(tree, files)
  {
    hide Local;
    ReachIsTouched(files);
    LocalOn(tree, files, TouchedPaths(files));
  }

  const LETTER: Text := [97]

  lemma LetterIsValid()
    ensures ValidPath(LETTER)
  {
    var r := Split(LETTER[1..]);
    assert r == [[]] && r[1..] == [] && [LETTER[0]] + r[0] == LETTER;
    assert Split(LETTER) == [LETTER];
  }

  /** Creating the empty path under cover of a deletion. */
  const BLANK_PATCH: seq<PatchFile> := [PatchFile(LETTER, [], true, true, false, [])]

  /** With an entry under the empty path, the verdict turns on a path the patch does not name. */
  lemma BlankIsNotLocal(tree: Tree)
    requires [] in tree
    ensures ApplyPatch(tree, BLANK_PATCH) == Err(AlreadyExists([]))
    ensures TouchedPaths(BLANK_PATCH) == {LETTER}
    ensures ApplyPatch(Restrict(tree, {LETTER}), BLANK_PATCH).Ok?
  {
    LetterIsValid();
    var f := BLANK_PATCH[0];
    assert BLANK_PATCH[1..] == [];
    assert TouchedPaths(BLANK_PATCH[1..]) == {};
    assert FirstRepeat(BLANK_PATCH, {}) == None;
    var small := Restrict(tree, {LETTER});
    assert [] !in small;
    assert TakeHunks(ToElements([]), [], Progress(0, [])).Ok?;
    var next := ApplyFile(small, f);
    assert next.Ok?;
    assert ApplyFiles(next.value, BLANK_PATCH[1..]).Ok?;
  }

  /** A tree sees every patch locally exactly when nothing stands under the empty path. */
  lemma LocalIffNoBlank(tree: Tree)
    ensures (forall files: seq<PatchFile> :: Local(tree, files)) <==> [] !in tree
  {
    if [] !in tree {
      forall files: seq<PatchFile>
        ensures Local(tree, files)
      {
        TreeIsLocal(tree, files);
      }
    } else {
      BlankIsNotLocal(tree);
      assert !Local(tree, BLANK_PATCH);
    }
  }

  // ------------------------------------------------------------- the empty path

  predicate NoBlank(files: seq<PatchFile>) {
    forall i :: 0 <= i < |files| ==> !Blank(files[i])
  }

  /** The empty path is the one path two files may name together. */
  ghost predicate OneBlank(files: seq<PatchFile>) {
    forall i, j :: 0 <= i < j < |files| ==> !Blank(files[i]) || !Blank(files[j])
  }

  /** No file that applies takes away an entry it does not name. */
  lemma FileKeepsEntry(t: Tree, f: PatchFile, p: Text)
    requires ApplyFile(t, f).Ok? && p in t && p !in Touched(f)
    ensures At(ApplyFile(t, f).value, p) == At(t, p)
    ensures Blank(f) ==> [] !in t
  {
    hide ApplyHunks;
    FileFrame(t, f);
  }

  lemma {:induction false} FilesKeepEntry(t: Tree, files: seq<PatchFile>, p: Text)
    requires ApplyFiles(t, files).Ok? && p in t && p !in TouchedPaths(files)
    ensures At(ApplyFiles(t, files).value, p) == At(t, p)
    decreases |files|
  {
    hide ApplyFile, Touched;
    if files != [] {
      FileKeepsEntry(t, files[0], p);
      FilesKeepEntry(ApplyFile(t, files[0]).value, files[1..], p);
    }
  }

  /** An applied patch leaves every entry it does not name as it was, and creates none it does not name but the empty path. */
  lemma PatchFrame(tree: Tree, files: seq<PatchFile>)
    requires ApplyPatch(tree, files).Ok?
    ensures var t := ApplyPatch(tree, files).value;
            forall p :: p !in TouchedPaths(files) && (p in tree || p != [] || NoBlank(files)) ==> At(t, p) == At(tree, p)
  {
    hide FirstRepeat, Within;
    ReachIsTouched(files);
    var t, ps := ApplyPatch(tree, files).value, TouchedPaths(files);
    FilesLocal(tree, tree, files, ps + {[]});
    if NoBlank(files) { FilesLocal(tree, tree, files, ps); }
    forall p | p !in ps && (p in tree || p != [] || NoBlank(files))
      ensures At(t, p) == At(tree, p)
    {
      if p in tree { FilesKeepEntry(tree, files, p); }
    }
  }

  lemma BlankApplied(t: Tree, f: PatchFile)
    requires ApplyFile(t, f).Ok? && Blank(f)
    ensures [] !in t && [] in ApplyFile(t, f).value
  {
    hide ApplyHunks, ValidPath;
  }

  /** Once the empty path has an entry, no later file creates it. */
  lemma {:induction false} BlankLater(t: Tree, files: seq<PatchFile>, j: nat)
    requires [] in t && j < |files| && Blank(files[j])
    ensures ApplyFiles(t, files).Err?
    decreases |files|
  {
    hide ApplyFile, Blank, Touched;
    if ApplyFile(t, files[0]).Ok? {
      EmptyIsNotTouched(files[0]);
      FileKeepsEntry(t, files[0], []);
      if j > 0 { BlankLater(ApplyFile(t, files[0]).value, files[1..], j - 1); }
    }
  }

  lemma EmptyIsNotTouched(f: PatchFile)
    ensures [] !in Touched(f)
  {
  }

  /** A patch that applies creates the empty path at most once. */
  lemma {:induction false} TwoBlanksFail(t: Tree, files: seq<PatchFile>, i: nat, j: nat)
    requires i < j < |files| && Blank(files[i]) && Blank(files[j])
    ensures ApplyFiles(t, files).Err?
    decreases |files|
  {
    hide ApplyFile, Blank;
    if ApplyFile(t, files[0]).Ok? {
      var next := ApplyFile(t, files[0]).value;
      if i == 0 {
        BlankApplied(t, files[0]);
        BlankLater(next, files[1..], j - 1);
      } else {
        TwoBlanksFail(next, files[1..], i - 1, j - 1);
      }
    }
  }

  // ------------------------------------------------------------- file by file

  /** No two files can reach one path. */
  ghost predicate Apart(files: seq<PatchFile>) {
    forall i, j :: 0 <= i < j < |files| ==> Reach(files[i]) !! Reach(files[j])
  }

  lemma ApartIff(files: seq<PatchFile>)
    ensures Apart(files) <==> OneVoice(files) && OneBlank(files)
  {
    forall i, j | 0 <= i < j < |files|
      ensures Reach(files[i]) !! Reach(files[j])
         <==> Touched(files[i]) !! Touched(files[j]) && (!Blank(files[i]) || !Blank(files[j]))
    {
      hide Blank;
      EmptyIsNotTouched(files[i]);
      EmptyIsNotTouched(files[j]);
    }
    hide Touched, Blank, Reach;
  }

  function ReachedPaths(files: seq<PatchFile>): set<Text> {
    if files == [] then {} else Reach(files[0]) + ReachedPaths(files[1..])
  }

  lemma {:induction false} ReachedByOne(files: seq<PatchFile>, p: Text)
    ensures p in ReachedPaths(files) <==> exists i :: 0 <= i < |files| && p in Reach(files[i])
  {
    hide Reach;
    if files != [] {
      ReachedByOne(files[1..], p);
      assert forall i :: 1 <= i < |files| ==> files[i] == files[1..][i - 1];
      if i :| 0 <= i < |files[1..]| && p in Reach(files[1..][i]) {
        assert p in Reach(files[i + 1]);
      }
    }
  }

  lemma {:induction false} NoBlankReaches(files: seq<PatchFile>)
    requires NoBlank(files)
    ensures OneBlank(files) && ReachedPaths(files) == TouchedPaths(files)
    ensures forall i :: 0 <= i < |files| ==> Reach(files[i]) == Touched(files[i])
  {
    if files != [] { NoBlankReaches(files[1..]); }
  }

  /** Each file applied alone to the tree the patch starts from. */
  ghost predicate EachApplies(tree: Tree, files: seq<PatchFile>) {
    forall i :: 0 <= i < |files| ==> ApplyFile(tree, files[i]).Ok?
  }

  /** `t` has at each path what the file reaching it leaves there, and elsewhere what `tree` has. */
  ghost predicate Pointwise(tree: Tree, files: seq<PatchFile>, t: Tree) {
    && SameBut(tree, t, ReachedPaths(files))
    && forall i :: 0 <= i < |files| ==> ApplyFile(tree, files[i]).Ok? && AgreeOn(ApplyFile(tree, files[i]).value, t, Reach(files[i]))
  }

  lemma FirstIsApart(files: seq<PatchFile>, p: Text)
    requires Apart(files) && files != [] && p in Reach(files[0])
    ensures p !in ReachedPaths(files[1..])
  {
    hide Reach;
    ReachedByOne(files[1..], p);
    forall i | 0 <= i < |files[1..]|
      ensures p !in Reach(files[1..][i])
    {
      assert Reach(files[0]) !! Reach(files[i + 1]);
    }
  }

  /** Files that reach different paths do not see each other. */
  lemma {:induction false} ApartPointwise(tree: Tree, files: seq<PatchFile>)
    requires Apart(files)
    ensures ApplyFiles(tree, files).Ok? <==> EachApplies(tree, files)
    ensures ApplyFiles(tree, files).Ok? ==> Pointwise(tree, files, ApplyFiles(tree, files).value)
    decreases |files|
  {
    hide ApplyFile, At, Reach;
    if files != [] {
      var f, rest := files[0], files[1..];
      assert files == [f] + rest;
      FileFrame(tree, f);
      if ApplyFile(tree, f).Ok? {
        var next := ApplyFile(tree, f).value;
        ApartPointwise(next, rest);
        RestUnseen(tree, files);
        if ApplyFiles(next, rest).Ok? {
          PointwiseFirst(tree, files, ApplyFiles(next, rest).value);
        }
      }
    }
  }

  /** The later files judge the tree after the first as they judge the one before it. */
  lemma RestUnseen(tree: Tree, files: seq<PatchFile>)
    requires Apart(files) && files != [] && ApplyFile(tree, files[0]).Ok?
    ensures var next := ApplyFile(tree, files[0]).value;
            forall i :: 0 < i < |files| ==> SameVerdict(ApplyFile(next, files[i]), ApplyFile(tree, files[i]), Reach(files[i]))
  {
    hide ApplyFile, At, Reach;
    var next := ApplyFile(tree, files[0]).value;
    FileFrame(tree, files[0]);
    forall i | 0 < i < |files|
      ensures SameVerdict(ApplyFile(next, files[i]), ApplyFile(tree, files[i]), Reach(files[i]))
    {
      assert Reach(files[0]) !! Reach(files[i]);
      assert AgreeOn(next, tree, Reach(files[i]));
      FileDepends(next, tree, files[i]);
    }
  }

  lemma PointwiseFirst(tree: Tree, files: seq<PatchFile>, t: Tree)
    requires Apart(files) && files != [] && ApplyFile(tree, files[0]).Ok?
    requires Pointwise(ApplyFile(tree, files[0]).value, files[1..], t)
    ensures Pointwise(tree, files, t)
  {
    hide ApplyFile, At, Reach;
    var f, rest := files[0], files[1..];
    var next := ApplyFile(tree, f).value;
    FileFrame(tree, f);
    RestUnseen(tree, files);
    forall p | p !in ReachedPaths(files)
      ensures At(tree, p) == At(t, p)
    {
      assert At(tree, p) == At(next, p) == At(t, p);
    }
    forall p | p in Reach(f)
      ensures At(next, p) == At(t, p)
    {
      FirstIsApart(files, p);
    }
    forall i | 0 < i < |files|
      ensures ApplyFile(tree, files[i]).Ok? && AgreeOn(ApplyFile(tree, files[i]).value, t, Reach(files[i]))
    {
      assert files[i] == rest[i - 1];
      assert ApplyFile(next, rest[i - 1]).Ok?;
      assert AgreeOn(ApplyFile(next, rest[i - 1]).value, t, Reach(rest[i - 1]));
      AgreeThrough(ApplyFile(next, files[i]).value, ApplyFile(tree, files[i]).value, t, Reach(files[i]));
    }
  }

  lemma AgreeThrough(a: Tree, b: Tree, t: Tree, ps: set<Text>)
    requires AgreeOn(a, b, ps) && AgreeOn(a, t, ps)
    ensures AgreeOn(b, t, ps)
  {
    hide At;
    forall p | p in ps
      ensures At(b, p) == At(t, p)
    {
      assert At(a, p) == At(b, p) && At(a, p) == At(t, p);
    }
  }

  /** Under the collision rule a patch applies exactly if each file alone does and the empty path is created once at most. */
  lemma FilesPointwise(tree: Tree, files: seq<PatchFile>)
    requires OneVoice(files)
    ensures ApplyFiles(tree, files).Ok? <==> EachApplies(tree, files) && OneBlank(files)
    ensures ApplyFiles(tree, files).Ok? ==> Pointwise(tree, files, ApplyFiles(tree, files).value)
  {
    hide ApplyFile, ApplyFiles, Pointwise, OneVoice, Blank, Apart, EachApplies;
    ApartIff(files);
    if OneBlank(files) {
      ApartPointwise(tree, files);
    } else {
      var i, j :| 0 <= i < j < |files| && Blank(files[i]) && Blank(files[j]);
      TwoBlanksFail(tree, files, i, j);
    }
  }

  lemma PointwiseUnique(tree: Tree, a: seq<PatchFile>, b: seq<PatchFile>, s: Tree, t: Tree)
    requires (forall f :: f in a <==> f in b) && Pointwise(tree, a, s) && Pointwise(tree, b, t)
    ensures s == t
  {
    hide ApplyFile, At, Reach;
    forall p: Text
      ensures At(s, p) == At(t, p)
    {
      ReachedByOne(a, p);
      ReachedByOne(b, p);
      if p in ReachedPaths(a) {
        var i :| 0 <= i < |a| && p in Reach(a[i]);
        assert a[i] in b;
        var j :| 0 <= j < |b| && b[j] == a[i];
        assert At(ApplyFile(tree, a[i]).value, p) == At(s, p);
        assert At(ApplyFile(tree, b[j]).value, p) == At(t, p);
      } else {
        if p in ReachedPaths(b) {
          var j :| 0 <= j < |b| && p in Reach(b[j]);
          assert b[j] in a;
        }
        assert At(tree, p) == At(s, p) && At(tree, p) == At(t, p);
      }
    }
    SameTree(s, t);
  }

  lemma {:induction false} TwiceIsRepeated<T>(s: seq<T>, x: T) returns (i: int, j: int)
    requires multiset(s)[x] >= 2
    ensures 0 <= i < j < |s| && s[i] == x == s[j]
  {
    var n := |s| - 1;
    assert s == s[..n] + [s[n]];
    if multiset(s[..n])[x] >= 2 {
      i, j := TwiceIsRepeated(s[..n], x);
    } else {
      assert x in multiset(s[..n]);
      assert x in s[..n];
      i :| 0 <= i < n && s[..n][i] == x;
      j := n;
    }
  }

  /** Rearranging files does not make them meet. */
  lemma ApartInAnyOrder(a: seq<PatchFile>, b: seq<PatchFile>)
    requires multiset(a) == multiset(b) && Apart(a)
    ensures Apart(b)
  {
    hide Reach;
    MultisetMembers(a, b);
    forall i, j | 0 <= i < j < |b|
      ensures Reach(b[i]) !! Reach(b[j])
    {
      if b[i] == b[j] {
        RepeatedIsTwice(b, i, j);
        var k, l := TwiceIsRepeated(a, b[i]);
        assert Reach(a[k]) !! Reach(a[l]);
      } else {
        assert b[i] in a && b[j] in a;
        var k :| 0 <= k < |a| && a[k] == b[i];
        var l :| 0 <= l < |a| && a[l] == b[j];
        assert k < l ==> Reach(a[k]) !! Reach(a[l]);
        assert l < k ==> Reach(a[l]) !! Reach(a[k]);
      }
    }
  }

  /** The order of the files does not matter to a patch that applies. */
  lemma OrderIsFree(tree: Tree, a: seq<PatchFile>, b: seq<PatchFile>)
    requires multiset(a) == multiset(b) && ApplyPatch(tree, a).Ok?
    ensures ApplyPatch(tree, b) == ApplyPatch(tree, a)
  {
    hide ApplyFile, ApplyFiles, FirstRepeat, Pointwise, OneVoice, OneBlank, Apart;
    RepeatIsCollision(a);
    RepeatIsCollision(b);
    FilesPointwise(tree, a);
    ApartIff(a);
    ApartInAnyOrder(a, b);
    ApartIff(b);
    MultisetMembers(a, b);
    assert b != [] by { assert a[0] in b; }
    forall i | 0 <= i < |b|
      ensures ApplyFile(tree, b[i]).Ok?
    {
      assert b[i] in a;
    }
    FilesPointwise(tree, b);
    PointwiseUnique(tree, a, b, ApplyFiles(tree, a).value, ApplyFiles(tree, b).value);
  }
}
