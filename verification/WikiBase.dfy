/**
 The committed wiki tree as one canonical byte string. Decoding an encoding
 gives the tree back; the decoder itself does not insist on order, so the
 streams that re-encode to themselves are exactly those with ascending paths.
 */
module WikiBase {
  import opened Prelude
  import opened Bytes
  import opened Codec
  import opened Wiki

  datatype Doc = Doc(path: Text, content: Text)

  // ----------------------------------------------------------------- encoding

  const TAG_WIKI: string := "molt-wiki-base-v1"

  function DocsOf(tree: Tree, paths: seq<Text>): (r: seq<Doc>)
    requires forall i :: 0 <= i < |paths| ==> paths[i] in tree
    ensures |r| == |paths| && forall i :: 0 <= i < |r| ==> r[i] == Doc(paths[i], tree[paths[i]])
  {
    seq(|paths|, i requires 0 <= i < |paths| => Doc(paths[i], tree[paths[i]]))
  }

  function Docs(tree: Tree): seq<Doc> {
    assert forall i :: 0 <= i < |Paths(tree.Keys)| ==> Paths(tree.Keys)[i] in Paths(tree.Keys);
    DocsOf(tree, Paths(tree.Keys))
  }

  function PutDoc(d: Doc): Text {
    Put(d.path) + Put(d.content)
  }

  function PutDocs(ds: seq<Doc>): Text {
    if ds == [] then [] else PutDoc(ds[0]) + PutDocs(ds[1..])
  }

  function Stream(ds: seq<Doc>): Text {
    Tag(TAG_WIKI) + (U64(|ds|) + PutDocs(ds))
  }

  function Encode(tree: Tree): Text {
    Stream(Docs(tree))
  }

  // ----------------------------------------------------------------- decoding

  /** `utf8` says which fields are text. */
  function ReadDoc(utf8: Text -> bool, s: Text): Result<(Doc, Text), Error> {
    var p := ReadField(s);
    if p.None? then Err(Overrun)
    else if !utf8(p.value.0) then Err(NotText)
    else
      var c := ReadField(p.value.1);
      if c.None? then Err(Overrun)
      else if !utf8(c.value.0) then Err(NotText)
      else Ok((Doc(p.value.0, c.value.0), c.value.1))
  }

  function DecodeDocs(utf8: Text -> bool, s: Text, n: nat): Result<(seq<Doc>, Text), Error>
    decreases n
  {
    if n == 0 then Ok(([], s))
    else
      match ReadDoc(utf8, s)
      case Err(e) => Err(e)
      case Ok((d, rest)) =>
        match DecodeDocs(utf8, rest, n - 1)
        case Err(e) => Err(e)
        case Ok((ds, rest')) => Ok(([d] + ds, rest'))
  }

  /** Inserting in stream order: the last document under a path stays. */
  function TreeOf(ds: seq<Doc>): Tree {
    if ds == [] then map[] else TreeOf(ds[..|ds| - 1])[ds[|ds| - 1].path := ds[|ds| - 1].content]
  }

  function DecodeStream(utf8: Text -> bool, bytes: Text): Result<seq<Doc>, Error> {
    var tag := Tag(TAG_WIKI);
    if !(tag <= bytes) then Err(WrongTag)
    else
      var n := ReadU64(bytes[|tag|..]);
      if n.None? then Err(Overrun)
      else
        match DecodeDocs(utf8, n.value.1, n.value.0)
        case Err(e) => Err(e)
        case Ok((ds, rest)) => if rest != [] then Err(Trailing) else Ok(ds)
  }

  function Decode(utf8: Text -> bool, bytes: Text): (r: Result<Tree, Error>) {
    match DecodeStream(utf8, bytes)
    case Err(e) => Err(e)
    case Ok(ds) => Ok(TreeOf(ds))
  }

  // -------------------------------------------------------------- round trips

  predicate OkDoc(utf8: Text -> bool, d: Doc) {
    Fits(d.path) && Fits(d.content) && utf8(d.path) && utf8(d.content)
  }

  predicate OkDocs(utf8: Text -> bool, ds: seq<Doc>) {
    |ds| <= U64_MAX && forall i :: 0 <= i < |ds| ==> OkDoc(utf8, ds[i])
  }

  lemma DocReads(utf8: Text -> bool, d: Doc, x: Text)
    requires OkDoc(utf8, d)
    ensures ReadDoc(utf8, PutDoc(d) + x) == Ok((d, x))
  {
    hide Put, ReadField;
    assert PutDoc(d) + x == Put(d.path) + (Put(d.content) + x);
    FieldReads(d.path, Put(d.content) + x);
    FieldReads(d.content, x);
  }

  lemma {:induction false} DocsRead(utf8: Text -> bool, ds: seq<Doc>, x: Text)
    requires OkDocs(utf8, ds)
    ensures DecodeDocs(utf8, PutDocs(ds) + x, |ds|) == Ok((ds, x))
  {
    hide PutDoc, ReadDoc;
    if ds == [] {
      assert PutDocs(ds) + x == x;
    } else {
      assert PutDocs(ds) + x == PutDoc(ds[0]) + (PutDocs(ds[1..]) + x);
      DocReads(utf8, ds[0], PutDocs(ds[1..]) + x);
      DocsRead(utf8, ds[1..], x);
      assert ds == [ds[0]] + ds[1..];
    }
  }

  lemma StreamReads(utf8: Text -> bool, ds: seq<Doc>, x: Text)
    requires OkDocs(utf8, ds)
    ensures DecodeStream(utf8, Stream(ds) + x) == if x == [] then Ok(ds) else Err(Trailing)
  {
    hide U64, ReadU64, PutDocs, DecodeDocs;
    var bytes, tag, rest := Stream(ds) + x, Tag(TAG_WIKI), PutDocs(ds) + x;
    assert bytes == tag + (U64(|ds|) + rest) && bytes[|tag|..] == U64(|ds|) + rest;
    U64Reads(|ds|, rest);
    DocsRead(utf8, ds, x);
  }

  lemma DocWritesBack(utf8: Text -> bool, s: Text)
    ensures match ReadDoc(utf8, s)
            case Err(_) => true
            case Ok((d, rest)) => s == PutDoc(d) + rest && OkDoc(utf8, d)
  {
    hide Put, ReadField;
    ReadsField(s);
    if ReadField(s).Some? {
      var (p, s1) := ReadField(s).value;
      ReadsField(s1);
      if ReadField(s1).Some? {
        var (c, s2) := ReadField(s1).value;
        assert Put(p) + (Put(c) + s2) == Put(p) + Put(c) + s2;
      }
    }
  }

  lemma {:induction false} DocsWriteBack(utf8: Text -> bool, s: Text, n: nat)
    ensures match DecodeDocs(utf8, s, n)
            case Err(_) => true
            case Ok((ds, rest)) => |ds| == n && s == PutDocs(ds) + rest && (n <= U64_MAX ==> OkDocs(utf8, ds))
    decreases n
  {
    hide PutDoc, ReadDoc, OkDoc;
    if n > 0 {
      DocWritesBack(utf8, s);
      match ReadDoc(utf8, s)
      case Err(_) =>
      case Ok((d, rest)) =>
        DocsWriteBack(utf8, rest, n - 1);
        match DecodeDocs(utf8, rest, n - 1) {
          case Err(_) =>
          case Ok((ds, rest')) =>
            var all := [d] + ds;
            assert all[1..] == ds;
            assert PutDoc(d) + (PutDocs(ds) + rest') == PutDocs(all) + rest';
        }
    }
  }

  lemma StreamWritesBack(utf8: Text -> bool, bytes: Text)
    ensures match DecodeStream(utf8, bytes)
            case Err(_) => true
            case Ok(ds) => bytes == Stream(ds) && OkDocs(utf8, ds)
  {
    hide U64, ReadU64, PutDocs, DecodeDocs, OkDocs;
    var tag := Tag(TAG_WIKI);
    if tag <= bytes {
      var s := bytes[|tag|..];
      assert bytes == tag + s;
      ReadsU64(s);
      if ReadU64(s).Some? {
        var (n, rest) := ReadU64(s).value;
        DocsWriteBack(utf8, rest, n);
        match DecodeDocs(utf8, rest, n)
        case Err(_) =>
        case Ok((ds, rest')) =>
          if rest' == [] { assert PutDocs(ds) + [] == PutDocs(ds); }
      }
    }
  }

  ghost predicate DocsAscend(ds: seq<Doc>) {
    forall i, j :: 0 <= i < j < |ds| ==> PathBefore(ds[i].path, ds[j].path)
  }

  /** Inserting documents with different paths keeps each of them. */
  lemma {:induction false} TreeOfDocs(ds: seq<Doc>)
    requires forall i, j :: 0 <= i < j < |ds| ==> ds[i].path != ds[j].path
    ensures forall i :: 0 <= i < |ds| ==> ds[i].path in TreeOf(ds) && TreeOf(ds)[ds[i].path] == ds[i].content
    ensures forall p <- TreeOf(ds) :: exists i :: 0 <= i < |ds| && ds[i].path == p
  {
    if ds != [] {
      var n := |ds| - 1;
      TreeOfDocs(ds[..n]);
      forall p <- TreeOf(ds)
        ensures exists i :: 0 <= i < |ds| && ds[i].path == p
      {
        if p == ds[n].path {
        } else {
          var i :| 0 <= i < |ds[..n]| && ds[..n][i].path == p;
          assert ds[i].path == p;
        }
      }
      forall i | 0 <= i < |ds|
        ensures ds[i].path in TreeOf(ds) && TreeOf(ds)[ds[i].path] == ds[i].content
      {
        if i < n { assert ds[..n][i] == ds[i]; }
      }
    }
  }

  lemma DocsAre(tree: Tree)
    ensures var ds, paths := Docs(tree), Paths(tree.Keys);
            |ds| == |paths| && forall i :: 0 <= i < |ds| ==> paths[i] in tree && ds[i] == Doc(paths[i], tree[paths[i]])
  {
    hide Paths;
    assert forall i :: 0 <= i < |Paths(tree.Keys)| ==> Paths(tree.Keys)[i] in Paths(tree.Keys);
  }

  lemma DocsAscending(tree: Tree)
    ensures DocsAscend(Docs(tree))
  {
    hide Paths, PathBefore, Docs;
    DocsAre(tree);
  }

  lemma DocsOfTree(tree: Tree)
    ensures DocsAscend(Docs(tree)) && TreeOf(Docs(tree)) == tree
  {
    hide Paths, PathBefore, TreeOf, Docs, DocsAscend;
    var ds, paths := Docs(tree), Paths(tree.Keys);
    DocsAre(tree);
    DocsAscending(tree);
    AscendingDiffer(ds);
    TreeOfDocs(ds);
    var back := TreeOf(ds);
    forall p <- tree
      ensures p in back && back[p] == tree[p]
    {
      assert p in paths;
      var i :| 0 <= i < |paths| && paths[i] == p;
      assert ds[i].path == p;
    }
    forall p <- back
      ensures p in tree
    {
      var i :| 0 <= i < |ds| && ds[i].path == p;
    }
  }

  lemma AscendingDiffer(ds: seq<Doc>)
    requires DocsAscend(ds)
    ensures forall i, j :: 0 <= i < j < |ds| ==> ds[i].path != ds[j].path
  {
  }

  lemma AscendingDocs(ds: seq<Doc>)
    requires DocsAscend(ds)
    ensures Docs(TreeOf(ds)) == ds
  {
    hide Paths, TreeOf, Docs, PathBefore;
    var tree := TreeOf(ds);
    AscendingDiffer(ds);
    TreeOfDocs(ds);
    DocsAre(tree);
    var mine, theirs := seq(|ds|, i requires 0 <= i < |ds| => ds[i].path), Paths(tree.Keys);
    forall x
      ensures x in mine <==> x in theirs
    {
      if x in mine {
        var i :| 0 <= i < |mine| && mine[i] == x;
        assert ds[i].path in tree;
      }
      if x in theirs {
        assert x in tree;
        var i :| 0 <= i < |ds| && ds[i].path == x;
        assert mine[i] == x;
      }
    }
    AscendUnique(mine, theirs);
  }

  predicate OkTree(utf8: Text -> bool, tree: Tree) {
    |tree| <= U64_MAX && forall p <- tree :: OkDoc(utf8, Doc(p, tree[p]))
  }

  /** Decoding an encoding gives the tree; an encoding with anything after it does not decode. */
  lemma DecodeOfEncode(utf8: Text -> bool, tree: Tree, x: Text)
    requires OkTree(utf8, tree)
    ensures Decode(utf8, Encode(tree) + x) == if x == [] then Ok(tree) else Err(Trailing)
  {
    hide Paths, Stream, DecodeStream, TreeOf;
    var ds := Docs(tree);
    DocsOfTree(tree);
    forall i | 0 <= i < |ds|
      ensures OkDoc(utf8, ds[i])
    {
      assert Paths(tree.Keys)[i] in Paths(tree.Keys);
    }
    StreamReads(utf8, ds, x);
  }

  /** No proper prefix of an encoding decodes. */
  lemma PrefixIsRefused(utf8: Text -> bool, tree: Tree, k: nat)
    requires OkTree(utf8, tree) && k < |Encode(tree)|
    ensures Decode(utf8, Encode(tree)[..k]).Err?
  {
    hide Encode, DecodeStream, OkTree, Stream, TreeOf;
    var bytes := Encode(tree);
    StreamWritesBack(utf8, bytes[..k]);
    if DecodeStream(utf8, bytes[..k]).Ok? {
      var ds := DecodeStream(utf8, bytes[..k]).value;
      assert Stream(ds) + bytes[k..] == bytes;
      StreamReads(utf8, ds, bytes[k..]);
      assert bytes + [] == bytes;
      DecodeOfEncode(utf8, tree, []);
    }
  }

  /** The paths ascend as byte strings. */
  ghost predicate InByteOrder(ds: seq<Doc>) {
    forall i, j :: 0 <= i < j < |ds| ==> Precedes(ds[i].path, ds[j].path)
  }

  lemma ByteOrderIs(ds: seq<Doc>)
    ensures DocsAscend(ds) <==> InByteOrder(ds)
  {
    hide LexLe, Precedes;
    forall i, j | 0 <= i < j < |ds|
      ensures PathBefore(ds[i].path, ds[j].path) <==> Precedes(ds[i].path, ds[j].path)
    {
      PathBeforeIs(ds[i].path, ds[j].path);
    }
  }

  /** A stream that decodes re-encodes to itself exactly when its paths ascend. */
  lemma CanonicalIffAscending(utf8: Text -> bool, bytes: Text)
    requires DecodeStream(utf8, bytes).Ok?
    ensures Encode(Decode(utf8, bytes).value) == bytes <==> InByteOrder(DecodeStream(utf8, bytes).value)
  {
    ByteOrderIs(DecodeStream(utf8, bytes).value);
    hide InByteOrder;
    hide Stream, DecodeStream, Docs, DocsAscend, TreeOf;
    var ds := DecodeStream(utf8, bytes).value;
    var tree := TreeOf(ds);
    StreamWritesBack(utf8, bytes);
    if DocsAscend(ds) {
      AscendingDocs(ds);
    }
    if Encode(tree) == bytes {
      DocsOfTree(tree);
      TreeOfSize(ds);
      DocsSize(tree);
      StreamInjective(utf8, ds, Docs(tree));
    }
  }

  lemma {:induction false} TreeOfSize(ds: seq<Doc>)
    ensures |TreeOf(ds)| <= |ds|
  {
    if ds != [] {
      var n := |ds| - 1;
      TreeOfSize(ds[..n]);
      assert TreeOf(ds).Keys == TreeOf(ds[..n]).Keys + {ds[n].path};
    }
  }

  lemma DocsSize(tree: Tree)
    ensures |Docs(tree)| == |tree|
  {
    hide Paths;
  }

  lemma {:induction false} PutDocsInjective(a: seq<Doc>, b: seq<Doc>)
    requires (forall i :: 0 <= i < |a| ==> Fits(a[i].path) && Fits(a[i].content)) && |a| == |b| && PutDocs(a) == PutDocs(b)
    requires forall i :: 0 <= i < |b| ==> Fits(b[i].path) && Fits(b[i].content)
    ensures a == b
  {
    hide Put;
    if a != [] {
      var x, y := PutDocs(a[1..]), PutDocs(b[1..]);
      assert PutDocs(a) == Put(a[0].path) + (Put(a[0].content) + x) && PutDocs(b) == Put(b[0].path) + (Put(b[0].content) + y);
      PutCancel(a[0].path, b[0].path, Put(a[0].content) + x, Put(b[0].content) + y);
      PutCancel(a[0].content, b[0].content, x, y);
      PutDocsInjective(a[1..], b[1..]);
      assert a == [a[0]] + a[1..] && b == [b[0]] + b[1..];
    }
  }

  /** A decoded stream and the encoding of its tree have the same documents if the same bytes. */
  lemma StreamInjective(utf8: Text -> bool, a: seq<Doc>, b: seq<Doc>)
    requires OkDocs(utf8, a) && |b| <= U64_MAX && Stream(a) == Stream(b) && b == Docs(TreeOf(a))
    ensures a == b
  {
    hide U64, PutDocs, Docs;
    AppendCancel(Tag(TAG_WIKI), Tag(TAG_WIKI), U64(|a|) + PutDocs(a), U64(|b|) + PutDocs(b));
    U64Cancel(|a|, |b|, PutDocs(a), PutDocs(b));
    FromDocs(utf8, a);
    PutDocsInjective(a, b);
  }

  lemma {:induction false} TreeOfFits(utf8: Text -> bool, ds: seq<Doc>)
    requires forall i :: 0 <= i < |ds| ==> OkDoc(utf8, ds[i])
    ensures forall p <- TreeOf(ds) :: Fits(p) && Fits(TreeOf(ds)[p])
  {
    if ds != [] {
      TreeOfFits(utf8, ds[..|ds| - 1]);
    }
  }

  lemma FromDocs(utf8: Text -> bool, a: seq<Doc>)
    requires OkDocs(utf8, a)
    ensures forall i :: 0 <= i < |Docs(TreeOf(a))| ==> Fits(Docs(TreeOf(a))[i].path) && Fits(Docs(TreeOf(a))[i].content)
  {
    hide Paths;
    TreeOfFits(utf8, a);
    var tree := TreeOf(a);
    assert forall i :: 0 <= i < |Paths(tree.Keys)| ==> Paths(tree.Keys)[i] in Paths(tree.Keys);
  }

  /** Two documents in falling order decode, and their tree encodes to other bytes. */
  lemma DisorderDecodes(utf8: Text -> bool)
    requires utf8([]) && utf8([97]) && utf8([98])
    ensures var bytes := Stream([Doc([98], []), Doc([97], [])]);
            Decode(utf8, bytes).Ok? && Encode(Decode(utf8, bytes).value) != bytes
  {
    hide Stream, DecodeStream, Encode, TreeOf;
    var ds := [Doc([98], []), Doc([97], [])];
    StreamReads(utf8, ds, []);
    assert Stream(ds) + [] == Stream(ds);
    CanonicalIffAscending(utf8, Stream(ds));
    ByteOrderIs(ds);
    assert !PathBefore(ds[0].path, ds[1].path);
  }

  // ------------------------------------------------------------------ the loop

  method NextDoc(utf8: Text -> bool, r: Reader) returns (d: Result<Doc, Error>)
    requires r.Valid()
    modifies r
    ensures r.Valid()
    ensures match d
            case Err(e) => ReadDoc(utf8, old(r.Left())) == Err(e)
            case Ok(doc) => ReadDoc(utf8, old(r.Left())) == Ok((doc, r.Left()))
  {
    var path := r.NextField();
    if path.None? { return Err(Overrun); }
    if !utf8(path.value) { return Err(NotText); }
    var content := r.NextField();
    if content.None? { return Err(Overrun); }
    if !utf8(content.value) { return Err(NotText); }
    return Ok(Doc(path.value, content.value));
  }

  /** The loop: each document is inserted as it is read. */
  method NextDocs(utf8: Text -> bool, r: Reader, n: nat) returns (res: Result<Tree, Error>)
    requires r.Valid()
    modifies r
    ensures r.Valid()
    ensures var whole := DecodeDocs(utf8, old(r.Left()), n);
            if whole.Err? then res == Err(whole.error) else res == Ok(TreeOf(whole.value.0)) && r.Left() == whole.value.1
  {
    hide ReadDoc, Prepend, DecodeDocs, TreeOf;
    var tree: Tree := map[];
    ghost var ds: seq<Doc> := [];
    ghost var whole := DecodeDocs(utf8, r.Left(), n);
    PrependNone(whole);
    TreeGrows([], Doc([], []));
    for i := 0 to n
      invariant r.Valid()
      invariant Prepend(ds, DecodeDocs(utf8, r.Left(), n - i)) == whole && tree == TreeOf(ds)
    {
      ghost var left := r.Left();
      var d := NextDoc(utf8, r);
      PrependOne(utf8, ds, left, n - i);
      if d.Err? { return Err(d.error); }
      TreeGrows(ds, d.value);
      ds := ds + [d.value];
      tree := tree[d.value.path := d.value.content];
    }
    PrependDone(utf8, ds, r.Left());
    return Ok(tree);
  }

  lemma TreeGrows(ds: seq<Doc>, d: Doc)
    ensures TreeOf([]) == map[]
    ensures TreeOf(ds + [d]) == TreeOf(ds)[d.path := d.content]
  {
    assert (ds + [d])[..|ds|] == ds;
  }

  /** The source's decoder: the tag, the count, the documents, and nothing after them. */
  method RunDecode(utf8: Text -> bool, bytes: Text) returns (res: Result<Tree, Error>)
    ensures res == Decode(utf8, bytes)
  {
    hide ReadU64, DecodeDocs, TreeOf, Tag;
    var tag := Tag(TAG_WIKI);
    if !(tag <= bytes) { return Err(WrongTag); }
    var r := new Reader(bytes[|tag|..]);
    assert r.Left() == bytes[|tag|..];
    var n := r.NextU64();
    if n.None? { return Err(Overrun); }
    res := NextDocs(utf8, r, n.value);
    if res.Ok? && r.at != |r.rest| { return Err(Trailing); }
  }

  lemma PrependDone(utf8: Text -> bool, ds: seq<Doc>, s: Text)
    ensures Prepend(ds, DecodeDocs(utf8, s, 0)) == Ok((ds, s))
  {
    assert ds + [] == ds;
  }

  lemma PrependOne(utf8: Text -> bool, ds: seq<Doc>, s: Text, n: nat)
    requires n > 0
    ensures Prepend(ds, DecodeDocs(utf8, s, n)) ==
            match ReadDoc(utf8, s)
            case Err(e) => Err(e)
            case Ok((d, rest)) => Prepend(ds + [d], DecodeDocs(utf8, rest, n - 1))
  {
    hide ReadDoc;
    match ReadDoc(utf8, s)
    case Err(_) =>
    case Ok((d, rest)) =>
      match DecodeDocs(utf8, rest, n - 1) {
        case Err(_) =>
        case Ok((more, _)) => assert ds + ([d] + more) == ds + [d] + more;
      }
  }
}
