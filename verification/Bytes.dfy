/**
 The framing every signed layout uses: little-endian integers, length-prefixed
 fields, counted runs. Each frame is prefix-free: what follows it cannot change
 how it is read. Strings are their UTF-8 bytes.
 */
module Bytes {
  import opened Prelude

  type byte = x: int | 0 <= x < 256
  type Text = seq<byte>

  function Pow256(w: nat): nat {
    if w == 0 then 1 else 256 * Pow256(w - 1)
  }

  /** `n` in `w` bytes, least significant first. */
  function Le(n: nat, w: nat): (s: Text)
    ensures |s| == w
  {
    if w == 0 then [] else [n % 256] + Le(n / 256, w - 1)
  }

  function FromLe(s: Text): nat {
    if s == [] then 0 else s[0] + 256 * FromLe(s[1..])
  }

  lemma {:induction false} FromLeOfLe(n: nat, w: nat)
    requires n < Pow256(w)
    ensures FromLe(Le(n, w)) == n
  {
    if w > 0 {
      assert Le(n, w)[1..] == Le(n / 256, w - 1);
      FromLeOfLe(n / 256, w - 1);
    }
  }

  /** Least significant byte first. */
  lemma U32Is(n: nat)
    ensures U32(n) == [n % 256, n / 0x100 % 256, n / 0x1_0000 % 256, n / 0x100_0000 % 256]
  {
    var a, b, c := n / 256, n / 256 / 256, n / 256 / 256 / 256;
    LeStep(n, 4);
    LeStep(a, 3);
    LeStep(b, 2);
    LeStep(c, 1);
    FourDigits(n);
    assert U32(n) == [n % 256] + ([a % 256] + ([b % 256] + ([c % 256] + [])));
  }

  lemma FourDigits(n: nat)
    ensures n / 256 / 256 == n / 0x1_0000 && n / 256 / 256 / 256 == n / 0x100_0000
    ensures n / 256 / 256 / 256 / 256 == n / 0x1_0000_0000
  {
  }

  lemma U64Is(n: nat)
    ensures U64(n) == U32(n) + U32(n / 0x1_0000_0000)
  {
    var a, b, c, d := n / 256, n / 0x1_0000, n / 0x100_0000, n / 0x1_0000_0000;
    FourDigits(n);
    LeStep(n, 8);
    LeStep(a, 7);
    LeStep(b, 6);
    LeStep(c, 5);
    U32Is(n);
    hide Le;
    FiveParts(n % 256, a % 256, b % 256, c % 256, Le(d, 4));
  }

  lemma FiveParts(a: byte, b: byte, c: byte, d: byte, x: Text)
    ensures [a] + ([b] + ([c] + ([d] + x))) == [a, b, c, d] + x
  {
  }

  lemma LowByte(b: byte, m: nat)
    ensures (b + 256 * m) % 256 == b && (b + 256 * m) / 256 == m
  {
  }

  lemma {:induction false} FromLeBound(s: Text)
    ensures FromLe(s) < Pow256(|s|)
  {
    if s != [] {
      FromLeBound(s[1..]);
    }
  }

  lemma LeStep(n: nat, w: nat)
    requires w > 0
    ensures Le(n, w) == [n % 256] + Le(n / 256, w - 1)
  {
  }

  lemma {:induction false} LeOfFromLe(s: Text)
    ensures FromLe(s) < Pow256(|s|) && Le(FromLe(s), |s|) == s
  {
    FromLeBound(s);
    hide Pow256, Le;
    if s == [] {
      assert |Le(FromLe(s), 0)| == 0;
    } else {
      var rest := FromLe(s[1..]);
      LeOfFromLe(s[1..]);
      LowByte(s[0], rest);
      LeStep(FromLe(s), |s|);
      assert s == [s[0]] + s[1..];
    }
  }

  lemma Widths()
    ensures Pow256(4) == U32_MAX + 1 && Pow256(8) == U64_MAX + 1
  {
    assert Pow256(2) == 65536;
    assert Pow256(4) == 256 * (256 * Pow256(2));
    assert Pow256(6) == 256 * (256 * Pow256(4));
    assert Pow256(8) == 256 * (256 * Pow256(6));
  }

  function U32(n: nat): (s: Text)
    ensures |s| == 4
  {
    Le(n, 4)
  }

  function U64(n: nat): (s: Text)
    ensures |s| == 8
  {
    Le(n, 8)
  }

  /** A field the source can frame. */
  predicate Fits(b: Text) {
    |b| <= U32_MAX
  }

  /** A length-prefixed field. */
  function Put(b: Text): (s: Text)
    ensures |s| == 4 + |b|
  {
    U32(|b|) + b
  }

  function EncodeAll<T>(f: T -> Text, s: seq<T>): Text {
    if s == [] then [] else f(s[0]) + EncodeAll(f, s[1..])
  }

  /** A run headed by its `u64` count. */
  function Run<T>(f: T -> Text, s: seq<T>): Text {
    U64(|s|) + EncodeAll(f, s)
  }

  /** A run headed by its `u32` count. */
  function Run32<T>(f: T -> Text, s: seq<T>): Text {
    U32(|s|) + EncodeAll(f, s)
  }

  // -------------------------------------------------------------- cancellation

  lemma AppendCancel(a: Text, b: Text, x: Text, y: Text)
    requires |a| == |b| && a + x == b + y
    ensures a == b && x == y
  {
    assert (a + x)[..|a|] == a && (b + y)[..|b|] == b;
    assert (a + x)[|a|..] == x && (b + y)[|b|..] == y;
  }

  lemma U32Cancel(n: nat, m: nat, x: Text, y: Text)
    requires n <= U32_MAX && m <= U32_MAX && U32(n) + x == U32(m) + y
    ensures n == m && x == y
  {
    Widths();
    AppendCancel(U32(n), U32(m), x, y);
    FromLeOfLe(n, 4);
    FromLeOfLe(m, 4);
  }

  lemma U64Cancel(n: nat, m: nat, x: Text, y: Text)
    requires n <= U64_MAX && m <= U64_MAX && U64(n) + x == U64(m) + y
    ensures n == m && x == y
  {
    Widths();
    AppendCancel(U64(n), U64(m), x, y);
    FromLeOfLe(n, 8);
    FromLeOfLe(m, 8);
  }

  lemma PutCancel(a: Text, b: Text, x: Text, y: Text)
    requires Fits(a) && Fits(b) && Put(a) + x == Put(b) + y
    ensures a == b && x == y
  {
    assert Put(a) + x == U32(|a|) + (a + x) && Put(b) + y == U32(|b|) + (b + y);
    U32Cancel(|a|, |b|, a + x, b + y);
    AppendCancel(a, b, x, y);
  }

  predicate FitsAll(s: seq<Text>) {
    |s| <= U64_MAX && forall i :: 0 <= i < |s| ==> Fits(s[i])
  }

  // --------------------------------------------------------------------- tags

  predicate Ascii(s: string) {
    forall i :: 0 <= i < |s| ==> s[i] < 128 as char
  }

  /** An ASCII string's bytes. */
  function Word(s: string): (b: Text)
    requires Ascii(s)
    ensures |b| == |s| && forall i :: 0 <= i < |s| ==> b[i] == s[i] as int
  {
    seq(|s|, i requires 0 <= i < |s| => s[i] as int)
  }

  /** A version tag and its terminating zero. */
  function Tag(s: string): (b: Text)
    requires Ascii(s)
    ensures |b| == |s| + 1
  {
    Word(s) + [0]
  }

  // -------------------------------------------------------------------- order

  /** Lexicographic order of byte strings, as `str` compares. */
  predicate LexLe(a: Text, b: Text) {
    a == [] || (b != [] && (a[0] < b[0] || (a[0] == b[0] && LexLe(a[1..], b[1..]))))
  }

  lemma {:induction false} LexTotal(a: Text, b: Text)
    ensures LexLe(a, b) || LexLe(b, a)
  {
    if a != [] && b != [] {
      LexTotal(a[1..], b[1..]);
    }
  }

  lemma {:induction false} LexTransitive(a: Text, b: Text, c: Text)
    requires LexLe(a, b) && LexLe(b, c)
    ensures LexLe(a, c)
  {
    if a != [] && a[0] == b[0] && b[0] == c[0] {
      LexTransitive(a[1..], b[1..], c[1..]);
    }
  }

  lemma {:induction false} LexAntisymmetric(a: Text, b: Text)
    requires LexLe(a, b) && LexLe(b, a)
    ensures a == b
  {
    if a != [] && b != [] {
      LexAntisymmetric(a[1..], b[1..]);
      assert a == [a[0]] + a[1..] && b == [b[0]] + b[1..];
    }
  }

  /** At the first place where they differ `a` has the smaller byte, or has ended. */
  ghost predicate Precedes(a: Text, b: Text) {
    exists k :: DiffersAt(a, b, k)
  }

  predicate DiffersAt(a: Text, b: Text, k: nat) {
    k <= |a| && k < |b| && a[..k] == b[..k] && (k < |a| ==> a[k] < b[k])
  }

  lemma LaterDiffers(a: Text, b: Text, k: nat)
    requires DiffersAt(a, b, k)
    ensures k > 0 ==> a[0] == b[0]
  {
    if k > 0 { assert a[..k][0] == b[..k][0]; }
  }

  lemma {:induction false} LexLeIs(a: Text, b: Text)
    ensures LexLe(a, b) <==> a == b || Precedes(a, b)
  {
    if a == [] {
      assert b == [] || DiffersAt(a, b, 0);
    } else if b != [] && a[0] == b[0] {
      LexLeIs(a[1..], b[1..]);
      assert a == [a[0]] + a[1..] && b == [b[0]] + b[1..];
      if k: nat :| DiffersAt(a[1..], b[1..], k) {
        assert a[..k + 1] == [a[0]] + a[1..][..k] && b[..k + 1] == [b[0]] + b[1..][..k];
        assert DiffersAt(a, b, k + 1);
      }
      if k: nat :| DiffersAt(a, b, k) {
        assert a[1..][..k - 1] == a[..k][1..] && b[1..][..k - 1] == b[..k][1..];
        assert DiffersAt(a[1..], b[1..], k - 1);
      }
    } else if b != [] {
      if a[0] < b[0] { assert DiffersAt(a, b, 0); }
      if k: nat :| DiffersAt(a, b, k) { LaterDiffers(a, b, k); }
    }
  }
}
