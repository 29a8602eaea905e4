/** Reading framed streams back: the cursor both decoders move along the bytes. */
module Codec {
  import opened Prelude
  import opened Bytes

  datatype Error = WrongTag | Overrun | NotText | NotARecord | NotCanonical | WrongOp | OutOfOrder | Trailing

  /** The next `n` bytes and what follows them. */
  function Take(s: Text, n: nat): (r: Option<(Text, Text)>) {
    if n <= |s| then Some((s[..n], s[n..])) else None
  }

  function ReadU64(s: Text): (r: Option<(nat, Text)>) {
    var t := Take(s, 8);
    if t.None? then None else Some((FromLe(t.value.0), t.value.1))
  }

  function ReadField(s: Text): (r: Option<(Text, Text)>) {
    var t := Take(s, 4);
    if t.None? then None else Take(t.value.1, FromLe(t.value.0))
  }

  lemma U64Reads(n: nat, x: Text)
    requires n <= U64_MAX
    ensures ReadU64(U64(n) + x) == Some((n, x))
  {
    Widths();
    FromLeOfLe(n, 8);
    assert (U64(n) + x)[..8] == U64(n) && (U64(n) + x)[8..] == x;
  }

  lemma FieldReads(b: Text, x: Text)
    requires Fits(b)
    ensures ReadField(Put(b) + x) == Some((b, x))
  {
    Widths();
    FromLeOfLe(|b|, 4);
    var s := Put(b) + x;
    assert s[..4] == U32(|b|) && s[4..] == b + x;
    assert (b + x)[..|b|] == b && (b + x)[|b|..] == x;
  }

  lemma ReadsU64(s: Text)
    ensures ReadU64(s).Some? ==> var (n, x) := ReadU64(s).value; n <= U64_MAX && s == U64(n) + x
  {
    if |s| >= 8 {
      Widths();
      LeOfFromLe(s[..8]);
      assert s == s[..8] + s[8..];
    }
  }

  lemma ReadsField(s: Text)
    ensures ReadField(s).Some? ==> var (b, x) := ReadField(s).value; Fits(b) && s == Put(b) + x
  {
    if ReadField(s).Some? {
      Widths();
      LeOfFromLe(s[..4]);
      var n := FromLe(s[..4]);
      var b, x := s[4..][..n], s[4..][n..];
      assert s == s[..4] + s[4..] && s[4..] == b + x;
      assert s[..4] + (b + x) == s[..4] + b + x;
    }
  }

  // ----------------------------------------------------------------- readers

  function ReadByte(s: Text): (r: Option<(byte, Text)>) {
    if s == [] then None else Some((s[0], s[1..]))
  }

  function ReadU32(s: Text): (r: Option<(nat, Text)>) {
    var (b, rest) :- Take(s, 4);
    Some((FromLe(b), rest))
  }

  /** What follows the tag's characters and a zero byte. */
  function ReadTag(tag: string, s: Text): (r: Option<Text>) {
    if |tag| < |s| && (forall i :: 0 <= i < |tag| ==> s[i] == tag[i] as int) && s[|tag|] == 0 then Some(s[|tag| + 1..]) else None
  }

  /** `n` values, one after the other. */
  function ReadMany<T>(read: Text -> Option<(T, Text)>, n: nat, s: Text): (r: Option<(seq<T>, Text)>) {
    if n == 0 then Some(([], s))
    else
      var (v, rest) :- read(s);
      var (more, after) :- ReadMany(read, n - 1, rest);
      Some(([v] + more, after))
  }

  /** A `u64` count and as many values. */
  function ReadRun<T>(read: Text -> Option<(T, Text)>, s: Text): (r: Option<(seq<T>, Text)>) {
    var (n, rest) :- ReadU64(s);
    ReadMany(read, n, rest)
  }

  /** A `u32` count and as many values. */
  function ReadRun32<T>(read: Text -> Option<(T, Text)>, s: Text): (r: Option<(seq<T>, Text)>) {
    var (n, rest) :- ReadU32(s);
    ReadMany(read, n, rest)
  }

  /** Values up to the end of the stream. */
  function ReadAll<T>(read: Text -> Option<(T, Text)>, s: Text): (r: Option<seq<T>>)
    decreases |s|
  {
    if s == [] then Some([])
    else
      var (v, rest) :- read(s);
      if |rest| >= |s| then None
      else
        var more :- ReadAll(read, rest);
        Some([v] + more)
  }

  /** What is written is read, whatever follows it. */
  ghost predicate ReadsBack<T(!new)>(write: T -> Text, ok: T -> bool, read: Text -> Option<(T, Text)>) {
    forall v, x :: ok(v) ==> read(write(v) + x) == Some((v, x))
  }

  lemma ByteReads(b: byte, x: Text)
    ensures ReadByte([b] + x) == Some((b, x))
  {
  }

  lemma TwoBytesRead(a: byte, b: byte, x: Text)
    ensures ReadByte([a, b] + x) == Some((a, [b] + x)) && ReadByte([b] + x) == Some((b, x))
  {
    assert ([a, b] + x)[1..] == [b] + x;
  }

  lemma U32Reads(n: nat, x: Text)
    requires n <= U32_MAX
    ensures ReadU32(U32(n) + x) == Some((n, x))
  {
    Widths();
    FromLeOfLe(n, 4);
    assert (U32(n) + x)[..4] == U32(n) && (U32(n) + x)[4..] == x;
  }

  lemma TagReads(tag: string, x: Text)
    requires Ascii(tag)
    ensures ReadTag(tag, Tag(tag) + x) == Some(x)
  {
    assert (Tag(tag) + x)[|tag| + 1..] == x;
  }

  /** Another tag of the same length is refused at the letter that differs. */
  lemma TagRefused(tag: string, other: string, i: nat, x: Text)
    requires Ascii(tag) && i < |tag| && i < |other| && tag[i] != other[i]
    ensures ReadTag(other, Tag(tag) + x).None?
  {
    assert (Tag(tag) + x)[i] == tag[i] as int;
  }

  lemma FieldsReadBack()
    ensures ReadsBack(Put, Fits, ReadField)
  {
    forall b, x | Fits(b)
      ensures ReadField(Put(b) + x) == Some((b, x))
    {
      FieldReads(b, x);
    }
  }

  lemma {:induction false} ManyRead<T(!new)>(write: T -> Text, ok: T -> bool, read: Text -> Option<(T, Text)>, s: seq<T>, x: Text)
    requires ReadsBack(write, ok, read) && forall i :: 0 <= i < |s| ==> ok(s[i])
    ensures ReadMany(read, |s|, EncodeAll(write, s) + x) == Some((s, x))
  {
    if s == [] {
      assert EncodeAll(write, s) + x == x;
    } else {
      assert EncodeAll(write, s) + x == write(s[0]) + (EncodeAll(write, s[1..]) + x);
      ManyRead(write, ok, read, s[1..], x);
      assert s == [s[0]] + s[1..];
    }
  }

  lemma RunReads<T(!new)>(write: T -> Text, ok: T -> bool, read: Text -> Option<(T, Text)>, s: seq<T>, x: Text)
    requires ReadsBack(write, ok, read) && |s| <= U64_MAX && forall i :: 0 <= i < |s| ==> ok(s[i])
    ensures ReadRun(read, Run(write, s) + x) == Some((s, x))
  {
    hide U64, ReadU64;
    assert Run(write, s) + x == U64(|s|) + (EncodeAll(write, s) + x);
    U64Reads(|s|, EncodeAll(write, s) + x);
    ManyRead(write, ok, read, s, x);
  }

  lemma Run32Reads<T(!new)>(write: T -> Text, ok: T -> bool, read: Text -> Option<(T, Text)>, s: seq<T>, x: Text)
    requires ReadsBack(write, ok, read) && |s| <= U32_MAX && forall i :: 0 <= i < |s| ==> ok(s[i])
    ensures ReadRun32(read, Run32(write, s) + x) == Some((s, x))
  {
    hide U32, ReadU32;
    assert Run32(write, s) + x == U32(|s|) + (EncodeAll(write, s) + x);
    U32Reads(|s|, EncodeAll(write, s) + x);
    ManyRead(write, ok, read, s, x);
  }

  lemma {:induction false} AllRead<T(!new)>(write: T -> Text, ok: T -> bool, read: Text -> Option<(T, Text)>, s: seq<T>)
    requires ReadsBack(write, ok, read) && forall v :: ok(v) ==> write(v) != []
    requires forall i :: 0 <= i < |s| ==> ok(s[i])
    ensures ReadAll(read, EncodeAll(write, s)) == Some(s)
  {
    if s != [] {
      AllRead(write, ok, read, s[1..]);
      assert ok(s[0]);
      assert s == [s[0]] + s[1..];
    }
  }

  lemma TextRunReads(s: seq<Text>, x: Text)
    requires FitsAll(s)
    ensures ReadRun(ReadField, Run(Put, s) + x) == Some((s, x))
  {
    FieldsReadBack();
    RunReads(Put, Fits, ReadField, s, x);
  }

  lemma TextRun32Reads(s: seq<Text>, x: Text)
    requires |s| <= U32_MAX && FitsAll(s)
    ensures ReadRun32(ReadField, Run32(Put, s) + x) == Some((s, x))
  {
    FieldsReadBack();
    Run32Reads(Put, Fits, ReadField, s, x);
  }

  function Prepend<T>(done: seq<T>, r: Result<(seq<T>, Text), Error>): Result<(seq<T>, Text), Error> {
    match r
    case Err(e) => Err(e)
    case Ok((more, rest)) => Ok((done + more, rest))
  }

  lemma PrependNone<T>(r: Result<(seq<T>, Text), Error>)
    ensures Prepend([], r) == r
  {
    assert r.Ok? ==> [] + r.value.0 == r.value.0;
  }

  /** The decoders' cursor over a fixed stream. */
  class Reader {
    const rest: Text
    var at: nat

    ghost predicate Valid()
      reads this
    {
      at <= |rest|
    }

    /** What the cursor has not read yet. */
    function Left(): Text
      requires Valid()
      reads this
    {
      rest[at..]
    }

    constructor (rest: Text)
      ensures Valid() && at == 0 && this.rest == rest
    {
      this.rest := rest;
      at := 0;
    }

    /** The next bytes, or nothing and an unmoved cursor. */
    method TakeBytes(n: nat) returns (r: Option<Text>)
      requires Valid()
      modifies this
      ensures Valid()
      ensures r.Some? <==> Take(old(Left()), n).Some?
      ensures r.Some? ==> Take(old(Left()), n) == Some((r.value, Left()))
      ensures r.None? ==> at == old(at)
    {
      if at + n > |rest| { return None; }
      r := Some(rest[at..at + n]);
      assert rest[at..][..n] == rest[at..at + n] && rest[at..][n..] == rest[at + n..];
      at := at + n;
    }

    method NextU64() returns (r: Option<nat>)
      requires Valid()
      modifies this
      ensures Valid()
      ensures match r case None => ReadU64(old(Left())).None? case Some(n) => ReadU64(old(Left())) == Some((n, Left()))
    {
      var raw := TakeBytes(8);
      return if raw.None? then None else Some(FromLe(raw.value));
    }

    method NextField() returns (r: Option<Text>)
      requires Valid()
      modifies this
      ensures Valid()
      ensures match r case None => ReadField(old(Left())).None? case Some(b) => ReadField(old(Left())) == Some((b, Left()))
    {
      var raw := TakeBytes(4);
      if raw.None? { return None; }
      r := TakeBytes(FromLe(raw.value));
    }
  }
}
