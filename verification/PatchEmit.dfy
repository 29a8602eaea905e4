/**
 The net changeset between two trees. Applied strictly to the first it gives the
 second, exactly when no rename in it reuses a path.
 */
module PatchEmit {
  import opened Prelude
  import opened Bytes
  import opened PatchHunks
  import opened PatchTree
  import opened Sorting
  import opened Wiki

  datatype Change =
    | Added(path: Text, content: Text)
    | Deleted(path: Text, content: Text)
    | Edited(oldPath: Text, newPath: Text, before: Text, content: Text)

  /** The path the patch leaves behind. */
  function Key(c: Change): Text {
    match c
    case Added(p, _) => p
    case Deleted(p, _) => p
    case Edited(_, n, _, _) => n
  }

  predicate ByKey(a: Change, b: Change) {
    LexLe(Key(a), Key(b))
  }

  /** The base path a rename says `path` came from. `renames` maps new paths to old ones. */
  function Source(base: Tree, renames: Tree, path: Text): Option<Text> {
    if path in renames && renames[path] in base then Some(renames[path]) else None
  }

  /** The base paths that renames took. */
  function Consumed(base: Tree, after: Tree, renames: Tree): set<Text> {
    set n | n in renames && n in after && renames[n] in base :: renames[n]
  }

  function AfterChange(base: Tree, renames: Tree, consumed: set<Text>, path: Text, content: Text): Option<Change> {
    match Source(base, renames, path)
    case Some(from) =>
      if from != path || base[from] != content then Some(Edited(from, path, base[from], content)) else None
    case None =>
      if path in base then
        if path in consumed then Some(Added(path, content))
        else if base[path] != content then Some(Edited(path, path, base[path], content))
        else None
      else Some(Added(path, content))
  }

  function OptionSeq<T>(o: Option<T>): seq<T> {
    match o
    case None => []
    case Some(x) => [x]
  }

  function AfterChanges(base: Tree, after: Tree, renames: Tree, consumed: set<Text>, paths: seq<Text>): seq<Change>
    requires forall i :: 0 <= i < |paths| ==> paths[i] in after
  {
    if paths == [] then []
    else
      var n := |paths| - 1;
      AfterChanges(base, after, renames, consumed, paths[..n])
      + OptionSeq(AfterChange(base, renames, consumed, paths[n], after[paths[n]]))
  }

  function Deletions(base: Tree, after: Tree, consumed: set<Text>, paths: seq<Text>): seq<Change>
    requires forall i :: 0 <= i < |paths| ==> paths[i] in base
  {
    if paths == [] then []
    else
      var n := |paths| - 1;
      Deletions(base, after, consumed, paths[..n])
      + if paths[n] in after || paths[n] in consumed then [] else [Deleted(paths[n], base[paths[n]])]
  }

  /** The paths of a tree, in its own order. */
  function PathsOf(t: Tree): (ps: seq<Text>)
    ensures forall i :: 0 <= i < |ps| ==> ps[i] in t
    ensures forall p <- t :: p in ps
    ensures Unrepeated(ps)
  {
    var ps := Paths(t.Keys);
    assert forall i :: 0 <= i < |ps| ==> ps[i] in ps;
    assert forall i, j :: 0 <= i < j < |ps| ==> PathBefore(ps[i], ps[j]);
    ps
  }

  function Unsorted(base: Tree, after: Tree, renames: Tree): seq<Change> {
    var consumed := Consumed(base, after, renames);
    AfterChanges(base, after, renames, consumed, PathsOf(after)) + Deletions(base, after, consumed, PathsOf(base))
  }

  function Changes(base: Tree, after: Tree, renames: Tree): seq<Change> {
    Sort(ByKey, Unsorted(base, after, renames))
  }

  method RunConsumed(base: Tree, after: Tree, renames: Tree) returns (consumed: set<Text>)
    ensures consumed == Consumed(base, after, renames)
  {
    hide PathsOf;
    consumed := {};
    var named := PathsOf(renames);
    for i := 0 to |named|
      invariant consumed == set n | n in named[..i] && n in after && renames[n] in base :: renames[n]
    {
      assert named[..i + 1] == named[..i] + [named[i]];
      if named[i] in after && renames[named[i]] in base {
        consumed := consumed + {renames[named[i]]};
      }
    }
    assert named[..|named|] == named;
  }

  method RunAfter(base: Tree, after: Tree, renames: Tree, consumed: set<Text>) returns (out: seq<Change>)
    ensures out == AfterChanges(base, after, renames, consumed, PathsOf(after))
  {
    hide PathsOf, AfterChange;
    out := [];
    var paths := PathsOf(after);
    for i := 0 to |paths|
      invariant out == AfterChanges(base, after, renames, consumed, paths[..i])
    {
      assert paths[..i + 1][..i] == paths[..i];
      var change := AfterChange(base, renames, consumed, paths[i], after[paths[i]]);
      if change.Some? {
        out := out + [change.value];
      }
    }
    assert paths[..|paths|] == paths;
  }

  method RunDeletions(base: Tree, after: Tree, consumed: set<Text>) returns (out: seq<Change>)
    ensures out == Deletions(base, after, consumed, PathsOf(base))
  {
    hide PathsOf;
    out := [];
    var paths := PathsOf(base);
    for i := 0 to |paths|
      invariant out == Deletions(base, after, consumed, paths[..i])
    {
      assert paths[..i + 1][..i] == paths[..i];
      if paths[i] in after || paths[i] in consumed {
        continue;
      }
      out := out + [Deleted(paths[i], base[paths[i]])];
    }
    assert paths[..|paths|] == paths;
  }

  method RunChanges(base: Tree, after: Tree, renames: Tree) returns (out: seq<Change>)
    ensures out == Changes(base, after, renames)
  {
    var consumed := RunConsumed(base, after, renames);
    out := RunAfter(base, after, renames, consumed);
    var gone := RunDeletions(base, after, consumed);
    out := Sort(ByKey, out + gone);
  }

  // ------------------------------------------------- what the changes are

  /** What the changeset holds, said without the loops. */
  ghost predicate IsChange(base: Tree, after: Tree, renames: Tree, c: Change) {
    var consumed := Consumed(base, after, renames);
    match c
    case Added(p, t) =>
      At(after, p) == Some(t) && Source(base, renames, p).None? && (p in base ==> p in consumed)
    case Deleted(p, t) =>
      At(base, p) == Some(t) && p !in after && p !in consumed
    case Edited(o, n, b, t) =>
      && At(after, n) == Some(t) && At(base, o) == Some(b) && (o != n || b != t)
      && match Source(base, renames, n) { case Some(from) => from == o case None => o == n && n !in consumed }
  }

  lemma OneAfter(base: Tree, after: Tree, renames: Tree, path: Text, c: Change)
    requires path in after
    ensures AfterChange(base, renames, Consumed(base, after, renames), path, after[path]) == Some(c)
       <==> IsChange(base, after, renames, c) && !c.Deleted? && Key(c) == path
  {
    hide Consumed;
  }

  lemma {:induction false} AfterMembers(base: Tree, after: Tree, renames: Tree, paths: seq<Text>, c: Change)
    requires forall i :: 0 <= i < |paths| ==> paths[i] in after
    ensures c in AfterChanges(base, after, renames, Consumed(base, after, renames), paths)
       <==> IsChange(base, after, renames, c) && !c.Deleted? && Key(c) in paths
  {
    hide Consumed, Source, IsChange, AfterChange;
    if paths != [] {
      var n := |paths| - 1;
      AfterMembers(base, after, renames, paths[..n], c);
      OneAfter(base, after, renames, paths[n], c);
      assert paths == paths[..n] + [paths[n]];
    }
  }

  lemma {:induction false} DeletionMembers(base: Tree, after: Tree, renames: Tree, paths: seq<Text>, c: Change)
    requires forall i :: 0 <= i < |paths| ==> paths[i] in base
    ensures c in Deletions(base, after, Consumed(base, after, renames), paths)
       <==> IsChange(base, after, renames, c) && c.Deleted? && Key(c) in paths
  {
    hide Consumed, Source;
    if paths != [] {
      var n := |paths| - 1;
      DeletionMembers(base, after, renames, paths[..n], c);
      assert paths == paths[..n] + [paths[n]];
    }
  }

  lemma UnsortedMembers(base: Tree, after: Tree, renames: Tree, c: Change)
    ensures c in Unsorted(base, after, renames) <==> IsChange(base, after, renames, c)
  {
    hide Consumed, Source, PathsOf, AfterChanges, Deletions;
    AfterMembers(base, after, renames, PathsOf(after), c);
    DeletionMembers(base, after, renames, PathsOf(base), c);
  }

  lemma ByKeyIsOrder()
    ensures TotalPreorder(ByKey)
  {
    forall x, y
      ensures ByKey(x, y) || ByKey(y, x)
    {
      LexTotal(Key(x), Key(y));
    }
    forall x, y, z | ByKey(x, y) && ByKey(y, z)
      ensures ByKey(x, z)
    {
      LexTransitive(Key(x), Key(y), Key(z));
    }
  }

  ghost predicate KeysDiffer(cs: seq<Change>) {
    forall i, j :: 0 <= i < j < |cs| ==> Key(cs[i]) != Key(cs[j])
  }

  lemma OneKey(base: Tree, renames: Tree, consumed: set<Text>, path: Text, content: Text)
    ensures var o := AfterChange(base, renames, consumed, path, content); o.Some? ==> Key(o.value) == path
  {
  }

  /** One more change under a new key. */
  lemma KeysLonger(cs: seq<Change>, c: Change, paths: seq<Text>)
    requires KeysDiffer(cs) && (forall i :: 0 <= i < |cs| ==> Key(cs[i]) in paths) && Key(c) !in paths
    ensures KeysDiffer(cs + [c])
  {
    hide Key;
  }

  lemma {:induction false} AfterKeys(base: Tree, after: Tree, renames: Tree, consumed: set<Text>, paths: seq<Text>)
    requires (forall i :: 0 <= i < |paths| ==> paths[i] in after) && Unrepeated(paths)
    ensures var cs := AfterChanges(base, after, renames, consumed, paths);
            KeysDiffer(cs) && forall i :: 0 <= i < |cs| ==> Key(cs[i]) in paths
  {
    hide AfterChange, Key, KeysDiffer, Source;
    if paths == [] {
      NoKeysDiffer();
    } else {
      var n := |paths| - 1;
      var front, content := AfterChanges(base, after, renames, consumed, paths[..n]), after[paths[n]];
      AfterKeys(base, after, renames, consumed, paths[..n]);
      var o := AfterChange(base, renames, consumed, paths[n], content);
      assert AfterChanges(base, after, renames, consumed, paths) == front + OptionSeq(o);
      hide AfterChanges;
      assert paths[n] !in paths[..n];
      assert forall i :: 0 <= i < |front| ==> Key(front[i]) in paths[..n] && Key(front[i]) in paths;
      OneKey(base, renames, consumed, paths[n], content);
      if o.Some? {
        KeysLonger(front, o.value, paths[..n]);
      } else {
        assert front + [] == front;
      }
    }
  }

  lemma NoKeysDiffer()
    ensures KeysDiffer([])
  {
  }

  lemma {:induction false} DeletionKeys(base: Tree, after: Tree, consumed: set<Text>, paths: seq<Text>)
    requires (forall i :: 0 <= i < |paths| ==> paths[i] in base) && Unrepeated(paths)
    ensures var cs := Deletions(base, after, consumed, paths);
            KeysDiffer(cs) && forall i :: 0 <= i < |cs| ==> Key(cs[i]) in paths && Key(cs[i]) !in after
  {
    if paths != [] {
      var n := |paths| - 1;
      DeletionKeys(base, after, consumed, paths[..n]);
      assert paths == paths[..n] + [paths[n]];
    }
  }

  lemma UnsortedKeys(base: Tree, after: Tree, renames: Tree)
    ensures KeysDiffer(Unsorted(base, after, renames))
  {
    hide Consumed, PathsOf, AfterChanges, Deletions;
    var consumed := Consumed(base, after, renames);
    AfterKeys(base, after, renames, consumed, PathsOf(after));
    DeletionKeys(base, after, consumed, PathsOf(base));
  }

  lemma KeysDifferInAnyOrder(a: seq<Change>, b: seq<Change>)
    requires multiset(a) == multiset(b) && KeysDiffer(a)
    ensures KeysDiffer(b)
  {
    hide Key;
    assert Unrepeated(a);
    UnrepeatedBySort(b, a);
    MultisetMembers(a, b);
    forall i, j | 0 <= i < j < |b|
      ensures Key(b[i]) != Key(b[j])
    {
      assert b[i] in a && b[j] in a;
      var k :| 0 <= k < |a| && a[k] == b[i];
      var l :| 0 <= l < |a| && a[l] == b[j];
      assert k < l ==> Key(a[k]) != Key(a[l]);
      assert l < k ==> Key(a[l]) != Key(a[k]);
    }
  }

  /** A rename takes `o` of the base to `n`. */
  ghost predicate Takes(base: Tree, renames: Tree, o: Text, n: Text) {
    o in base && n in renames && renames[n] == o
  }

  /** A rename takes `o` to some document of the new side. */
  ghost predicate Taken(base: Tree, after: Tree, renames: Tree, o: Text) {
    exists n :: n in after && Takes(base, renames, o, n)
  }

  /** The net changes: what is new, what is gone, and what moved or differs. */
  ghost predicate IsNet(base: Tree, after: Tree, renames: Tree, c: Change) {
    match c
    case Added(p, t) =>
      p in after && after[p] == t && (forall o :: !Takes(base, renames, o, p)) && (p in base ==> Taken(base, after, renames, p))
    case Deleted(p, t) => p in base && base[p] == t && p !in after && !Taken(base, after, renames, p)
    case Edited(o, n, b, t) =>
      && n in after && after[n] == t && o in base && base[o] == b && (o != n || b != t)
      && (|| Takes(base, renames, o, n)
          || (o == n && (forall x :: !Takes(base, renames, x, n)) && !Taken(base, after, renames, n)))
  }

  lemma ConsumedIs(base: Tree, after: Tree, renames: Tree, p: Text)
    ensures p in Consumed(base, after, renames) <==> Taken(base, after, renames, p)
    ensures forall o :: Source(base, renames, p) == Some(o) <==> Takes(base, renames, o, p)
  {
    if n :| n in after && Takes(base, renames, p, n) {
      assert n in renames && n in after && renames[n] in base;
    }
  }

  lemma ChangeIsNet(base: Tree, after: Tree, renames: Tree, c: Change)
    ensures IsChange(base, after, renames, c) <==> IsNet(base, after, renames, c)
  {
    hide Consumed, Source, Takes, Taken;
    ConsumedIs(base, after, renames, match c case Added(p, _) => p case Deleted(p, _) => p case Edited(_, n, _, _) => n);
  }

  /** The path a change leaves behind. */
  ghost predicate Leaves(c: Change, p: Text) {
    match c
    case Added(n, _) => p == n
    case Deleted(o, _) => p == o
    case Edited(_, n, _, _) => p == n
  }

  /** The paths left behind ascend as byte strings. */
  ghost predicate InPathOrder(cs: seq<Change>) {
    forall i, j, p, q :: 0 <= i < j < |cs| && Leaves(cs[i], p) && Leaves(cs[j], q) ==> Precedes(p, q)
  }

  lemma KeysAscend(cs: seq<Change>)
    requires KeysDiffer(cs) && Sorted(ByKey, cs)
    ensures InPathOrder(cs)
  {
    hide Precedes, LexLe;
    forall i, j, p, q | 0 <= i < j < |cs| && Leaves(cs[i], p) && Leaves(cs[j], q)
      ensures Precedes(p, q)
    {
      assert p == Key(cs[i]) && q == Key(cs[j]) && ByKey(cs[i], cs[j]);
      LexLeIs(p, q);
    }
  }

  /** The changeset holds exactly the net changes, one per path left behind, in path order. */
  lemma ChangesAreNet(base: Tree, after: Tree, renames: Tree)
    ensures var cs := Changes(base, after, renames);
            (forall c :: c in cs <==> IsNet(base, after, renames, c)) && InPathOrder(cs)
  {
    hide Changes, IsChange, IsNet, InPathOrder, KeysDiffer, ByKey;
    ChangesAre(base, after, renames);
    KeysAscend(Changes(base, after, renames));
    forall c
      ensures c in Changes(base, after, renames) <==> IsNet(base, after, renames, c)
    {
      ChangeIsNet(base, after, renames, c);
    }
  }

  lemma ChangesAre(base: Tree, after: Tree, renames: Tree)
    ensures var cs := Changes(base, after, renames);
            && (forall c :: c in cs <==> IsChange(base, after, renames, c))
            && KeysDiffer(cs) && Sorted(ByKey, cs)
  {
    hide Unsorted, IsChange, KeysDiffer;
    var cs := Unsorted(base, after, renames);
    ByKeyIsOrder();
    SortSorted(ByKey, cs);
    MultisetMembers(Sort(ByKey, cs), cs);
    UnsortedKeys(base, after, renames);
    KeysDifferInAnyOrder(cs, Sort(ByKey, cs));
    forall c
      ensures c in cs <==> IsChange(base, after, renames, c)
    {
      UnsortedMembers(base, after, renames, c);
    }
  }

  // ------------------------------------------------------------------ the patch

  /** `diff` stands for the line differ: any answer that aligns the two texts. */
  ghost predicate Aligner(diff: (Text, Text) -> seq<Hunk>) {
    forall a, b :: IsDiff(a, b, diff(a, b))
  }

  function FileOf(diff: (Text, Text) -> seq<Hunk>, c: Change): PatchFile {
    match c
    case Added(p, t) => PatchFile(p, p, true, false, false, diff([], t))
    case Deleted(p, t) => PatchFile(p, p, false, true, false, diff(t, []))
    case Edited(o, n, b, t) => PatchFile(o, n, false, false, o != n, if b != t then diff(b, t) else [])
  }

  function FilesOf(diff: (Text, Text) -> seq<Hunk>, cs: seq<Change>): (fs: seq<PatchFile>)
    ensures |fs| == |cs| && forall i :: 0 <= i < |cs| ==> fs[i] == FileOf(diff, cs[i])
  {
    seq(|cs|, i requires 0 <= i < |cs| => FileOf(diff, cs[i]))
  }

  /** The patch as it is read back; none when nothing changed. */
  function BuildPatch(diff: (Text, Text) -> seq<Hunk>, base: Tree, after: Tree, renames: Tree): Option<seq<PatchFile>> {
    var cs := Changes(base, after, renames);
    if cs == [] then None else Some(FilesOf(diff, cs))
  }

  /** Renames that move a document go from paths that are gone to paths that were free, one to one. */
  ghost predicate Clean(base: Tree, after: Tree, renames: Tree) {
    && (forall n <- after :: var s := Source(base, renames, n);
          s.Some? && s.value != n ==> n !in base && s.value !in after)
    && (forall m <- after, n <- after :: var s, t := Source(base, renames, m), Source(base, renames, n);
          s.Some? && s == t && s.value != m && s.value != n ==> m == n)
  }

  /** The condition, said of the renames themselves. */
  lemma CleanIs(base: Tree, after: Tree, renames: Tree)
    ensures Clean(base, after, renames) <==>
            && (forall o, n :: n in after && o != n && Takes(base, renames, o, n) ==> n !in base && o !in after)
            && (forall o, m, n :: m in after && n in after && m != o && n != o && Takes(base, renames, o, m) && Takes(base, renames, o, n) ==> m == n)
  {
    hide Source, Takes;
    forall n, o
      ensures Source(base, renames, n) == Some(o) <==> Takes(base, renames, o, n)
    {
      ConsumedIs(base, after, renames, n);
    }
  }

  ghost predicate ValidPaths(t: Tree) {
    forall p <- t :: ValidPath(p)
  }

  /** Applying what was built to the base gives the new side. */
  ghost predicate RoundTrips(diff: (Text, Text) -> seq<Hunk>, base: Tree, after: Tree, renames: Tree) {
    match BuildPatch(diff, base, after, renames)
    case None => base == after
    case Some(files) => ApplyPatch(base, files) == Ok(after)
  }

  // ---------------------------------------------------------------- each change

  function Names(c: Change): set<Text> {
    match c
    case Added(p, _) => {p}
    case Deleted(p, _) => {p}
    case Edited(o, n, _, _) => {o, n}
  }

  lemma NamesAreTouched(diff: (Text, Text) -> seq<Hunk>, base: Tree, after: Tree, renames: Tree, c: Change)
    requires ValidPaths(base) && ValidPaths(after) && IsChange(base, after, renames, c)
    ensures Touched(FileOf(diff, c)) == Names(c) && !Blank(FileOf(diff, c))
  {
    hide Consumed, Source;
    assert forall p <- Names(c) :: p in base || p in after;
    assert forall p <- Names(c) :: ValidPath(p);
  }

  /** Under clean renames every change applies alone, and leaves at its paths what the new side has. */
  lemma ChangeApplies(diff: (Text, Text) -> seq<Hunk>, base: Tree, after: Tree, renames: Tree, c: Change)
    requires Aligner(diff) && ValidPaths(base) && ValidPaths(after) && IsChange(base, after, renames, c)
    requires Clean(base, after, renames)
    ensures ApplyFile(base, FileOf(diff, c)).Ok?
    ensures AgreeOn(ApplyFile(base, FileOf(diff, c)).value, after, Names(c))
  {
    hide IsDiff, ApplyHunks, ValidPath;
    match c
    case Added(p, t) =>
      AppliesIffDiff([], t, diff([], t));
      FreeAgain(base, after, renames, p);
    case Deleted(p, t) =>
      AppliesIffDiff(t, [], diff(t, []));
    case Edited(o, n, b, t) =>
      AppliesIffDiff(b, t, diff(b, t));
      AppliesIffDiff(b, b, []);
      NoHunks(b);
      assert o != n ==> n !in base && o !in after;
  }

  /** Under clean renames no consumed path is created again. */
  lemma FreeAgain(base: Tree, after: Tree, renames: Tree, p: Text)
    requires Clean(base, after, renames) && p in after && Source(base, renames, p).None?
    ensures p !in Consumed(base, after, renames)
  {
    forall n | n in renames && n in after && renames[n] in base
      ensures renames[n] != p
    {
      assert Source(base, renames, n) == Some(renames[n]);
    }
  }

  /** Under clean renames two changes name no path in common. */
  lemma ChangesApart(base: Tree, after: Tree, renames: Tree, c: Change, d: Change)
    requires Clean(base, after, renames) && Key(c) != Key(d)
    requires IsChange(base, after, renames, c) && IsChange(base, after, renames, d)
    ensures Names(c) !! Names(d)
  {
    OldIsApart(base, after, renames, c, d);
    OldIsApart(base, after, renames, d, c);
  }

  lemma OldIsApart(base: Tree, after: Tree, renames: Tree, c: Change, d: Change)
    requires Clean(base, after, renames) && Key(c) != Key(d)
    requires IsChange(base, after, renames, c) && IsChange(base, after, renames, d)
    ensures c.Edited? && c.oldPath != c.newPath ==> c.oldPath !in Names(d)
  {
    if c.Edited? && c.oldPath != c.newPath {
      assert Source(base, renames, c.newPath) == Some(c.oldPath);
      assert c.oldPath in Consumed(base, after, renames);
      assert c.oldPath !in after;
      if d.Edited? && d.oldPath != d.newPath {
        assert Source(base, renames, d.newPath) == Some(d.oldPath);
      }
    }
  }

  /** A path no change names is the same on both sides. */
  lemma UnnamedIsSame(base: Tree, after: Tree, renames: Tree, p: Text)
    requires forall c :: IsChange(base, after, renames, c) ==> p !in Names(c)
    ensures At(base, p) == At(after, p)
  {
    if p in after {
      var s := Source(base, renames, p);
      if s.Some? {
        assert !IsChange(base, after, renames, Edited(s.value, p, base[s.value], after[p]));
      } else {
        assert !IsChange(base, after, renames, Added(p, after[p]));
        assert p in base;
        assert !IsChange(base, after, renames, Edited(p, p, base[p], after[p]));
      }
    } else if p in base {
      assert !IsChange(base, after, renames, Deleted(p, base[p]));
      var n :| n in renames && n in after && renames[n] in base && renames[n] == p;
      assert IsChange(base, after, renames, Edited(p, n, base[p], after[n]));
    }
  }

  // ------------------------------------------------------------- the round trip

  lemma FilesSpeakOnce(diff: (Text, Text) -> seq<Hunk>, base: Tree, after: Tree, renames: Tree, cs: seq<Change>)
    requires ValidPaths(base) && ValidPaths(after) && KeysDiffer(cs)
    requires forall c :: c in cs ==> IsChange(base, after, renames, c)
    ensures NoBlank(FilesOf(diff, cs))
    ensures Clean(base, after, renames) ==> OneVoice(FilesOf(diff, cs))
  {
    hide IsChange, Touched, Names, FileOf, Blank, ValidPaths, Clean, Key;
    var fs := FilesOf(diff, cs);
    forall i | 0 <= i < |cs|
      ensures IsChange(base, after, renames, cs[i]) && Touched(fs[i]) == Names(cs[i]) && !Blank(fs[i])
    {
      assert cs[i] in cs;
      NamesAreTouched(diff, base, after, renames, cs[i]);
    }
    if Clean(base, after, renames) {
      forall i, j | 0 <= i < j < |fs|
        ensures Touched(fs[i]) !! Touched(fs[j])
      {
        ChangesApart(base, after, renames, cs[i], cs[j]);
      }
    }
  }

  lemma ApplyNone(base: Tree)
    ensures ApplyFiles(base, []) == Ok(base)
  {
  }

  lemma CleanRoundTrips(diff: (Text, Text) -> seq<Hunk>, base: Tree, after: Tree, renames: Tree)
    requires Aligner(diff) && ValidPaths(base) && ValidPaths(after) && Clean(base, after, renames)
    ensures RoundTrips(diff, base, after, renames)
  {
    hide Aligner, ValidPaths, Clean, IsChange, Changes, FileOf, ApplyFile, ApplyFiles, OneVoice, NoBlank, OneBlank, KeysDiffer, Names, Touched, Reach, At, FirstRepeat;
    var cs := Changes(base, after, renames);
    ChangesAre(base, after, renames);
    var files := FilesOf(diff, cs);
    FilesSpeakOnce(diff, base, after, renames, cs);
    RepeatIsCollision(files);
    NoBlankReaches(files);
    FilesPointwise(base, files);
    forall i | 0 <= i < |files|
      ensures ApplyFile(base, files[i]).Ok? && AgreeOn(ApplyFile(base, files[i]).value, after, Names(cs[i]))
      ensures Touched(files[i]) == Names(cs[i])
    {
      assert cs[i] in cs;
      ChangeApplies(diff, base, after, renames, cs[i]);
      NamesAreTouched(diff, base, after, renames, cs[i]);
    }
    assert EachApplies(base, files);
    ApplyNone(base);
    var t := ApplyFiles(base, files).value;
    forall p: Text
      ensures At(t, p) == At(after, p)
    {
      TouchedByOne(files, p);
      if i :| 0 <= i < |files| && p in Touched(files[i]) {
        assert At(ApplyFile(base, files[i]).value, p) == At(t, p);
      } else {
        assert At(base, p) == At(t, p);
        forall c | IsChange(base, after, renames, c)
          ensures p !in Names(c)
        {
          assert c in cs;
          var i :| 0 <= i < |cs| && cs[i] == c;
          assert p !in Touched(files[i]);
        }
        UnnamedIsSame(base, after, renames, p);
      }
    }
    SameTree(t, after);
  }

  /** A moving rename is always in the changeset. */
  lemma MoveIsChange(base: Tree, after: Tree, renames: Tree, n: Text)
    requires n in after && Source(base, renames, n).Some? && Source(base, renames, n).value != n
    ensures var o := Source(base, renames, n).value; IsChange(base, after, renames, Edited(o, n, base[o], after[n]))
  {
  }

  /** A move that applied found its target free and left nothing at its source. */
  lemma MoveApplied(diff: (Text, Text) -> seq<Hunk>, base: Tree, o: Text, n: Text, before: Text, content: Text)
    requires o != n && ApplyFile(base, FileOf(diff, Edited(o, n, before, content))).Ok?
    ensures n !in base
    ensures At(ApplyFile(base, FileOf(diff, Edited(o, n, before, content))).value, o) == None
  {
    hide ApplyHunks, ValidPath;
  }

  /** A change of path: the one kind of file that names its paths twice. */
  predicate Moving(c: Change) {
    c.Edited? && c.oldPath != c.newPath
  }

  /** Files in the place of the changes, the moves among them as emitted. */
  ghost predicate CarriesMoves(diff: (Text, Text) -> seq<Hunk>, cs: seq<Change>, files: seq<PatchFile>) {
    && |files| == |cs| && NoBlank(files)
    && forall i :: 0 <= i < |cs| && Moving(cs[i]) ==> files[i] == FileOf(diff, cs[i])
  }

  /** Whatever becomes of the other files, a patch that carries the moves and gives the new side had clean renames. */
  lemma AppliedIsClean(diff: (Text, Text) -> seq<Hunk>, base: Tree, after: Tree, renames: Tree, files: seq<PatchFile>)
    requires ValidPaths(base) && ValidPaths(after)
    requires CarriesMoves(diff, Changes(base, after, renames), files)
    requires files == [] || ApplyPatch(base, files) == Ok(after)
    ensures Clean(base, after, renames)
  {
    hide ValidPaths, CarriesMoves, Changes, ApplyPatch, Source;
    forall n <- after | Source(base, renames, n).Some? && Source(base, renames, n).value != n
      ensures n !in base && Source(base, renames, n).value !in after
    {
      MovePlaced(diff, base, after, renames, files, n);
    }
    forall m <- after, n <- after | Source(base, renames, m).Some? && Source(base, renames, m) == Source(base, renames, n)
                                    && Source(base, renames, m).value != m && Source(base, renames, m).value != n
      ensures m == n
    {
      if m != n { MovesApart(diff, base, after, renames, files, m, n); }
    }
  }

  lemma RoundTripIsClean(diff: (Text, Text) -> seq<Hunk>, base: Tree, after: Tree, renames: Tree)
    requires ValidPaths(base) && ValidPaths(after) && RoundTrips(diff, base, after, renames)
    ensures Clean(base, after, renames)
  {
    hide ValidPaths, IsChange, Changes, FileOf, KeysDiffer, Clean, ApplyPatch, NoBlank;
    var cs := Changes(base, after, renames);
    ChangesAre(base, after, renames);
    FilesSpeakOnce(diff, base, after, renames, cs);
    AppliedIsClean(diff, base, after, renames, FilesOf(diff, cs));
  }

  /** Where a move stands in the changeset, and what it names. */
  lemma MoveStands(diff: (Text, Text) -> seq<Hunk>, base: Tree, after: Tree, renames: Tree, files: seq<PatchFile>, n: Text)
    returns (i: nat)
    requires ValidPaths(base) && ValidPaths(after)
    requires CarriesMoves(diff, Changes(base, after, renames), files)
    requires n in after && Source(base, renames, n).Some? && Source(base, renames, n).value != n
    ensures var o := Source(base, renames, n).value;
            var c := Edited(o, n, base[o], after[n]);
            i < |files| && Changes(base, after, renames)[i] == c && files[i] == FileOf(diff, c) && Touched(files[i]) == {o, n}
  {
    hide ValidPaths, IsChange, Changes, FileOf, KeysDiffer, Touched, NoBlank;
    var cs, o := Changes(base, after, renames), Source(base, renames, n).value;
    var c := Edited(o, n, base[o], after[n]);
    ChangesAre(base, after, renames);
    MoveIsChange(base, after, renames, n);
    i :| 0 <= i < |cs| && cs[i] == c;
    NamesAreTouched(diff, base, after, renames, c);
  }

  lemma MovePlaced(diff: (Text, Text) -> seq<Hunk>, base: Tree, after: Tree, renames: Tree, files: seq<PatchFile>, n: Text)
    requires ValidPaths(base) && ValidPaths(after)
    requires CarriesMoves(diff, Changes(base, after, renames), files)
    requires files == [] || ApplyPatch(base, files) == Ok(after)
    requires n in after && Source(base, renames, n).Some? && Source(base, renames, n).value != n
    ensures n !in base && Source(base, renames, n).value !in after
  {
    hide ValidPaths, Changes, FileOf, ApplyFile, ApplyFiles, NoBlank, OneBlank, Touched, Reach, FirstRepeat, OneVoice;
    var i := MoveStands(diff, base, after, renames, files, n);
    var o := Source(base, renames, n).value;
    RepeatIsCollision(files);
    NoBlankReaches(files);
    FilesPointwise(base, files);
    MoveApplied(diff, base, o, n, base[o], after[n]);
    assert At(ApplyFile(base, files[i]).value, o) == At(after, o);
  }

  /** Two moves from one source would name it twice. */
  lemma MovesApart(diff: (Text, Text) -> seq<Hunk>, base: Tree, after: Tree, renames: Tree, files: seq<PatchFile>, m: Text, n: Text)
    requires ValidPaths(base) && ValidPaths(after) && m in after && n in after
    requires CarriesMoves(diff, Changes(base, after, renames), files)
    requires Source(base, renames, m).Some? && Source(base, renames, m) == Source(base, renames, n)
    requires Source(base, renames, m).value != m && Source(base, renames, m).value != n && m != n
    ensures files != [] && ApplyPatch(base, files).Err?
  {
    hide ValidPaths, Changes, FileOf, ApplyFiles, Touched, FirstRepeat, CarriesMoves, Source;
    var i := MoveStands(diff, base, after, renames, files, n);
    var j := MoveStands(diff, base, after, renames, files, m);
    NamedTwice(base, files, i, j, Source(base, renames, n).value);
  }

  /** A path two files name voids the patch. */
  lemma NamedTwice(base: Tree, files: seq<PatchFile>, i: nat, j: nat, p: Text)
    requires i < |files| && j < |files| && i != j && p in Touched(files[i]) && p in Touched(files[j])
    ensures ApplyPatch(base, files).Err? && ApplyPatch(base, files).error.TouchedTwice?
  {
    hide ApplyFiles, Touched, FirstRepeat;
    assert !OneVoice(files) by {
      assert i < j ==> !(Touched(files[i]) !! Touched(files[j]));
      assert j < i ==> !(Touched(files[j]) !! Touched(files[i]));
    }
    RepeatIsCollision(files);
  }

  /** The emitter and the strict applier are inverse exactly on clean renames. */
  lemma RoundTripsIffClean(diff: (Text, Text) -> seq<Hunk>, base: Tree, after: Tree, renames: Tree)
    requires Aligner(diff) && ValidPaths(base) && ValidPaths(after)
    ensures RoundTrips(diff, base, after, renames) <==> Clean(base, after, renames)
  {
    hide RoundTrips, Clean, Aligner, ValidPaths;
    if Clean(base, after, renames) { CleanRoundTrips(diff, base, after, renames); }
    if RoundTrips(diff, base, after, renames) { RoundTripIsClean(diff, base, after, renames); }
  }

  const A_PATH: Text := [97]
  const B_PATH: Text := [98]

  /** Two documents that trade their names: no clean rename, and the patch names both paths twice. */
  lemma SwapIsVoid(diff: (Text, Text) -> seq<Hunk>, x: Text, y: Text)
    ensures var base, after, renames := map[A_PATH := x, B_PATH := y], map[A_PATH := y, B_PATH := x], map[A_PATH := B_PATH, B_PATH := A_PATH];
            && !Clean(base, after, renames)
            && BuildPatch(diff, base, after, renames).Some?
            && ApplyPatch(base, BuildPatch(diff, base, after, renames).value).Err?
            && ApplyPatch(base, BuildPatch(diff, base, after, renames).value).error.TouchedTwice?
  {
    hide Changes, KeysDiffer, ApplyPatch, ApplyFiles;
    var base, after, renames := map[A_PATH := x, B_PATH := y], map[A_PATH := y, B_PATH := x], map[A_PATH := B_PATH, B_PATH := A_PATH];
    var cs := Changes(base, after, renames);
    ChangesAre(base, after, renames);
    MoveIsChange(base, after, renames, A_PATH);
    MoveIsChange(base, after, renames, B_PATH);
    var files := FilesOf(diff, cs);
    var i :| 0 <= i < |cs| && cs[i] == Edited(B_PATH, A_PATH, y, y);
    var j :| 0 <= j < |cs| && cs[j] == Edited(A_PATH, B_PATH, x, x);
    NamedTwice(base, files, i, j, A_PATH);
  }

  lemma StillIs(base: Tree, after: Tree, renames: Tree)
    ensures (forall n <- after :: Source(base, renames, n) in {None, Some(n)})
       <==> forall o, n :: n in after && Takes(base, renames, o, n) ==> o == n
  {
    hide Source, Takes;
    forall n
      ensures forall o :: Source(base, renames, n) == Some(o) <==> Takes(base, renames, o, n)
    {
      ConsumedIs(base, after, renames, n);
    }
  }

  /** There is no patch exactly when the trees are equal and nothing moved. */
  lemma NoPatchIffSame(diff: (Text, Text) -> seq<Hunk>, base: Tree, after: Tree, renames: Tree)
    ensures BuildPatch(diff, base, after, renames).None?
       <==> base == after && forall o, n :: n in after && Takes(base, renames, o, n) ==> o == n
  {
    hide Changes, KeysDiffer;
    StillIs(base, after, renames);
    hide Takes;
    var cs := Changes(base, after, renames);
    ChangesAre(base, after, renames);
    if cs == [] {
      forall c
        ensures !IsChange(base, after, renames, c)
      {
        assert c !in cs;
      }
      forall p: Text
        ensures At(base, p) == At(after, p)
      {
        UnnamedIsSame(base, after, renames, p);
      }
      SameTree(base, after);
      forall n <- after
        ensures Source(base, renames, n) in {None, Some(n)}
      {
        var s := Source(base, renames, n);
        if s.Some? && s.value != n { MoveIsChange(base, after, renames, n); }
      }
    } else if base == after && forall n <- after :: Source(base, renames, n) in {None, Some(n)} {
      var c := cs[0];
      assert c in cs;
      assert IsChange(base, after, renames, c);
      StillHasNone(base, renames, c);
    }
  }

  lemma StillHasNone(base: Tree, renames: Tree, c: Change)
    requires forall n <- base :: Source(base, renames, n) in {None, Some(n)}
    ensures !IsChange(base, base, renames, c)
  {
    if c.Added? && c.path in Consumed(base, base, renames) {
      var n :| n in renames && n in base && renames[n] in base && renames[n] == c.path;
      assert Source(base, renames, n) == Some(c.path);
    }
  }
}
