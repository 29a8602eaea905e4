/**
 The vault's tagged preimages: a tag, a field count, then each field or counted
 run. Two primitives never give the same bytes, and one primitive gives the same
 bytes only for the same values.
 */
module VaultLayout {
  import opened Prelude
  import opened Bytes
  import opened Codec

  datatype Field = One(bytes: Text) | Many(items: seq<Text>)

  function PutField(f: Field): Text {
    match f
    case One(b) => Put(b)
    case Many(items) => Run32(Put, items)
  }

  function PutFields(fs: seq<Field>): Text {
    if fs == [] then [] else PutField(fs[0]) + PutFields(fs[1..])
  }

  function Layout(tag: string, fs: seq<Field>): Text
    requires Ascii(tag)
  {
    Tag(tag) + (U32(|fs|) + PutFields(fs))
  }

  predicate OkField(f: Field) {
    match f
    case One(b) => Fits(b)
    case Many(items) => |items| <= U32_MAX && FitsAll(items)
  }

  predicate OkFields(fs: seq<Field>) {
    |fs| <= U32_MAX && forall i :: 0 <= i < |fs| ==> OkField(fs[i])
  }

  /** The same fields single and the same fields lists. */
  predicate SameShape(a: seq<Field>, b: seq<Field>) {
    |a| == |b| && forall i :: 0 <= i < |a| ==> a[i].One? == b[i].One?
  }

  predicate NoZero(tag: string) {
    Ascii(tag) && forall i :: 0 <= i < |tag| ==> tag[i] != 0 as char
  }

  /** The characters up to the first zero byte. */
  function ReadName(s: Text): Option<(string, Text)> {
    if s == [] then None
    else if s[0] == 0 then Some(([], s[1..]))
    else
      var (name, rest) :- ReadName(s[1..]);
      Some(([s[0] as char] + name, rest))
  }

  /** One field per entry of the shape: single where it is true, a list where it is false. */
  function ReadFields(shape: seq<bool>, s: Text): Option<(seq<Field>, Text)> {
    if shape == [] then Some(([], s))
    else
      var (f, s1) :- ReadOne(shape[0], s);
      var (more, s2) :- ReadFields(shape[1..], s1);
      Some(([f] + more, s2))
  }

  function ReadOne(single: bool, s: Text): Option<(Field, Text)> {
    if single then
      var (b, rest) :- ReadField(s);
      Some((One(b), rest))
    else
      var (items, rest) :- ReadRun32(ReadField, s);
      Some((Many(items), rest))
  }

  predicate HasShape(fs: seq<Field>, shape: seq<bool>) {
    |fs| == |shape| && forall i :: 0 <= i < |fs| ==> fs[i].One? == shape[i]
  }

  lemma {:induction false} NameReads(tag: string, x: Text)
    requires NoZero(tag)
    ensures ReadName(Tag(tag) + x) == Some((tag, x))
  {
    if tag != [] {
      NameReads(tag[1..], x);
      assert (Tag(tag) + x)[1..] == Tag(tag[1..]) + x;
      assert (Tag(tag) + x)[0] == tag[0] as int;
      assert tag == [tag[0]] + tag[1..];
    }
  }

  lemma OneReads(f: Field, x: Text)
    requires OkField(f)
    ensures ReadOne(f.One?, PutField(f) + x) == Some((f, x))
  {
    hide Put, Run32, ReadField, ReadRun32;
    if f.One? { FieldReads(f.bytes, x); } else { TextRun32Reads(f.items, x); }
  }

  lemma {:induction false} FieldsRead(fs: seq<Field>, shape: seq<bool>, x: Text)
    requires OkFields(fs) && HasShape(fs, shape)
    ensures ReadFields(shape, PutFields(fs) + x) == Some((fs, x))
  {
    hide PutField, OkField, ReadOne;
    if fs == [] {
      assert PutFields(fs) + x == x;
    } else {
      assert PutFields(fs) + x == PutField(fs[0]) + (PutFields(fs[1..]) + x);
      OneReads(fs[0], PutFields(fs[1..]) + x);
      FieldsRead(fs[1..], shape[1..], x);
      assert fs == [fs[0]] + fs[1..];
    }
  }

  /** Equal layouts have equal tags, and equal fields if the fields have one shape. */
  lemma LayoutCancel(s: string, a: seq<Field>, t: string, b: seq<Field>)
    requires NoZero(s) && NoZero(t) && OkFields(a) && OkFields(b) && Layout(s, a) == Layout(t, b)
    ensures s == t && |a| == |b| && (SameShape(a, b) ==> a == b)
  {
    hide Tag, U32, PutFields, NoZero, OkField, ReadName, ReadU32, ReadFields;
    NameReads(s, U32(|a|) + PutFields(a));
    NameReads(t, U32(|b|) + PutFields(b));
    U32Reads(|a|, PutFields(a));
    U32Reads(|b|, PutFields(b));
    if SameShape(a, b) {
      var shape := seq(|a|, i requires 0 <= i < |a| => a[i].One?);
      FieldsRead(a, shape, []);
      FieldsRead(b, shape, []);
    }
  }

  /** Without one shape they need not be: an empty field reads like an empty list. */
  lemma ShapesMeet(tag: string)
    requires Ascii(tag)
    ensures Layout(tag, [One([])]) == Layout(tag, [Many([])])
  {
    var none: seq<Text> := [];
    assert EncodeAll(Put, none) == [];
    assert Put([]) == U32(0) + [] == U32(0);
    assert Run32(Put, none) == U32(0) + [] == U32(0);
    assert [One([])][1..] == [] && [Many([])][1..] == [];
    assert PutFields([One([])]) == PutField(One([])) + PutFields([]);
    assert PutFields([Many([])]) == PutField(Many([])) + PutFields([]);
  }

  // ---------------------------------------------------------------- primitives

  datatype Primitive =
    | KeyInfo(foundingPk: Text, identityPk: Text)
    | SecretId(republic: Text, depositor: Text, name: Text, kind: Text, replaced: Text, m: byte,
               holders: seq<Text>, commitments: seq<Text>, payloadHash: Text)
    | DepositSigning(republic: Text, depositor: Text, name: Text, kind: Text, replaced: Text, m: byte,
                     holders: seq<Text>, commitments: seq<Text>, encShare: seq<Text>,
                     payloadHash: Text, size: nat, nonce: Text)
    | GrantId(secretId: Text, reader: Text, proposalId: nat)
    | ShareAad(secretId: Text, seat: Text)
    | RespAad(republic: Text, grantId: Text, seat: Text)
    | PayloadAad(republic: Text, depositor: Text, name: Text, kind: Text)
    | DekInfo(republic: Text, depositor: Text, name: Text, kind: Text)
    | EphInfo(secretId: Text, seat: Text)
    | DealInfo(republic: Text, name: Text, kind: Text, nonce: Text)
    | SecretScalarInfo
    | PayloadSeriesInfo(payloadHash: Text)
    | BaseSeriesInfo(commitment: Text)

  function KindOf(p: Primitive): nat {
    match p
    case KeyInfo(_, _) => 0
    case SecretId(_, _, _, _, _, _, _, _, _) => 1
    case DepositSigning(_, _, _, _, _, _, _, _, _, _, _, _) => 2
    case GrantId(_, _, _) => 3
    case ShareAad(_, _) => 4
    case RespAad(_, _, _) => 5
    case PayloadAad(_, _, _, _) => 6
    case DekInfo(_, _, _, _) => 7
    case EphInfo(_, _) => 8
    case DealInfo(_, _, _, _) => 9
    case SecretScalarInfo => 10
    case PayloadSeriesInfo(_) => 11
    case BaseSeriesInfo(_) => 12
  }

  function TagOf(kind: nat): string {
    match kind
    case 0 => "molt-vault-x25519-v1"
    case 1 => "molt-vault-secret-v1"
    case 2 => "molt-vault-deposit-v1"
    case 3 => "molt-vault-grant-v1"
    case 4 => "molt-vault-share-v1"
    case 5 => "molt-vault-resp-v1"
    case 6 => "molt-vault-payload-v1"
    case 7 => "molt-vault-dek-v1"
    case 8 => "molt-vault-eph-v1"
    case 9 => "molt-vault-deal-v1"
    case 10 => "molt-vault-secret-scalar-v1"
    case 11 => "molt-vault-payload-series-v1"
    case _ => "molt-vault-base-series-v1"
  }

  function FieldsOf(p: Primitive): seq<Field> {
    match p
    case KeyInfo(f, i) => [One(f), One(i)]
    case SecretId(r, d, n, k, was, m, hs, cs, hash) =>
      [One(r), One(d), One(n), One(k), One(was), One([m]), Many(hs), Many(cs), One(hash)]
    case DepositSigning(r, d, n, k, was, m, hs, cs, es, hash, size, nonce) =>
      [One(r), One(d), One(n), One(k), One(was), One([m]), Many(hs), Many(cs), Many(es), One(hash), One(U64(size)), One(nonce)]
    case GrantId(s, r, id) => [One(s), One(r), One(U64(id))]
    case ShareAad(s, seat) => [One(s), One(seat)]
    case RespAad(r, g, seat) => [One(r), One(g), One(seat)]
    case PayloadAad(r, d, n, k) => [One(r), One(d), One(n), One(k)]
    case DekInfo(r, d, n, k) => [One(r), One(d), One(n), One(k)]
    case EphInfo(s, seat) => [One(s), One(seat)]
    case DealInfo(r, n, k, nonce) => [One(r), One(n), One(k), One(nonce)]
    case SecretScalarInfo => []
    case PayloadSeriesInfo(h) => [One(h)]
    case BaseSeriesInfo(c) => [One(c)]
  }

  function NumberOf(p: Primitive): nat {
    match p
    case DepositSigning(_, _, _, _, _, _, _, _, _, _, size, _) => size
    case GrantId(_, _, id) => id
    case _ => 0
  }

  predicate OkPrimitive(p: Primitive) {
    OkFields(FieldsOf(p)) && NumberOf(p) <= U64_MAX
  }

  /** What tells the tags apart: their length and two of their letters. */
  function Mark(kind: nat): (nat, char, char) {
    match kind
    case 0 => (20, 'x', '5')
    case 1 => (20, 's', 'c')
    case 2 => (21, 'd', 'p')
    case 3 => (19, 'g', 'a')
    case 4 => (19, 's', 'a')
    case 5 => (18, 'r', 's')
    case 6 => (21, 'p', 'y')
    case 7 => (17, 'd', 'k')
    case 8 => (17, 'e', 'h')
    case 9 => (18, 'd', 'a')
    case 10 => (27, 's', 'c')
    case 11 => (28, 'p', 'y')
    case _ => (25, 'b', 's')
  }

  lemma TagHasMark(kind: nat)
    ensures var t := TagOf(kind); |t| > 13 && (|t|, t[11], t[13]) == Mark(kind)
  {
  }

  lemma EarlyTagHasNoZero(kind: nat)
    requires kind < 4
    ensures NoZero(TagOf(kind))
  {
  }

  lemma MiddleTagHasNoZero(kind: nat)
    requires 4 <= kind < 8
    ensures NoZero(TagOf(kind))
  {
  }

  lemma LateTagHasNoZero(kind: nat)
    requires 8 <= kind < 11
    ensures NoZero(TagOf(kind))
  {
  }

  lemma LastTagHasNoZero(kind: nat)
    requires 11 <= kind
    ensures NoZero(TagOf(kind))
  {
  }

  lemma TagHasNoZero(kind: nat)
    ensures NoZero(TagOf(kind))
  {
    hide TagOf, NoZero;
    if kind < 4 {
      EarlyTagHasNoZero(kind);
    } else if kind < 8 {
      MiddleTagHasNoZero(kind);
    } else if kind < 11 {
      LateTagHasNoZero(kind);
    } else {
      LastTagHasNoZero(kind);
    }
  }

  function PrimitiveBytes(p: Primitive): Text
  {
    TagHasNoZero(KindOf(p));
    Layout(TagOf(KindOf(p)), FieldsOf(p))
  }

  // -------------------------------------------------------------- reading back

  function KindNamed(name: string): Option<nat> {
    if name == "molt-vault-x25519-v1" then Some(0)
    else if name == "molt-vault-secret-v1" then Some(1)
    else if name == "molt-vault-deposit-v1" then Some(2)
    else if name == "molt-vault-grant-v1" then Some(3)
    else if name == "molt-vault-share-v1" then Some(4)
    else if name == "molt-vault-resp-v1" then Some(5)
    else if name == "molt-vault-payload-v1" then Some(6)
    else if name == "molt-vault-dek-v1" then Some(7)
    else if name == "molt-vault-eph-v1" then Some(8)
    else if name == "molt-vault-deal-v1" then Some(9)
    else if name == "molt-vault-secret-scalar-v1" then Some(10)
    else if name == "molt-vault-payload-series-v1" then Some(11)
    else if name == "molt-vault-base-series-v1" then Some(12)
    else None
  }

  function ShapeOf(kind: nat): seq<bool> {
    match kind
    case 0 => [true, true]
    case 1 => [true, true, true, true, true, true, false, false, true]
    case 2 => [true, true, true, true, true, true, false, false, false, true, true, true]
    case 3 => [true, true, true]
    case 4 => [true, true]
    case 5 => [true, true, true]
    case 6 => [true, true, true, true]
    case 7 => [true, true, true, true]
    case 8 => [true, true]
    case 9 => [true, true, true, true]
    case 10 => []
    case _ => [true]
  }

  /** The primitive whose fields these are, in its own order. */
  function FromFields(kind: nat, fs: seq<Field>): Option<Primitive>
    requires HasShape(fs, ShapeOf(kind))
  {
    match kind
    case 0 => Some(KeyInfo(fs[0].bytes, fs[1].bytes))
    case 1 =>
      if |fs[5].bytes| != 1 then None
      else Some(SecretId(fs[0].bytes, fs[1].bytes, fs[2].bytes, fs[3].bytes, fs[4].bytes, fs[5].bytes[0],
                         fs[6].items, fs[7].items, fs[8].bytes))
    case 2 =>
      if |fs[5].bytes| != 1 || |fs[10].bytes| != 8 then None
      else Some(DepositSigning(fs[0].bytes, fs[1].bytes, fs[2].bytes, fs[3].bytes, fs[4].bytes, fs[5].bytes[0],
                               fs[6].items, fs[7].items, fs[8].items, fs[9].bytes, FromLe(fs[10].bytes), fs[11].bytes))
    case 3 => if |fs[2].bytes| != 8 then None else Some(GrantId(fs[0].bytes, fs[1].bytes, FromLe(fs[2].bytes)))
    case 4 => Some(ShareAad(fs[0].bytes, fs[1].bytes))
    case 5 => Some(RespAad(fs[0].bytes, fs[1].bytes, fs[2].bytes))
    case 6 => Some(PayloadAad(fs[0].bytes, fs[1].bytes, fs[2].bytes, fs[3].bytes))
    case 7 => Some(DekInfo(fs[0].bytes, fs[1].bytes, fs[2].bytes, fs[3].bytes))
    case 8 => Some(EphInfo(fs[0].bytes, fs[1].bytes))
    case 9 => Some(DealInfo(fs[0].bytes, fs[1].bytes, fs[2].bytes, fs[3].bytes))
    case 10 => Some(SecretScalarInfo)
    case 11 => Some(PayloadSeriesInfo(fs[0].bytes))
    case _ => Some(BaseSeriesInfo(fs[0].bytes))
  }

  /** The tag names the primitive, the primitive its fields; nothing may follow. */
  function ReadPrimitive(s: Text): Option<Primitive> {
    var (name, s1) :- ReadName(s);
    var kind :- KindNamed(name);
    var (count, s2) :- ReadU32(s1);
    var (fs, rest) :- ReadFields(ShapeOf(kind), s2);
    if count == |fs| && rest == [] && HasShape(fs, ShapeOf(kind)) then FromFields(kind, fs) else None
  }

  lemma TagNames(kind: nat)
    requires kind <= 12
    ensures KindNamed(TagOf(kind)) == Some(kind)
  {
    TagHasMark(kind);
  }

  lemma KindHasShape(p: Primitive)
    ensures KindOf(p) <= 12 && HasShape(FieldsOf(p), ShapeOf(KindOf(p)))
  {
  }

  lemma FieldsName(p: Primitive)
    requires OkPrimitive(p)
    ensures HasShape(FieldsOf(p), ShapeOf(KindOf(p))) && FromFields(KindOf(p), FieldsOf(p)) == Some(p)
  {
    hide OkFields;
    KindHasShape(p);
    Widths();
    FromLeOfLe(NumberOf(p), 8);
  }

  /** Every preimage reads back as its primitive, with each value in its place. */
  lemma PrimitiveReads(p: Primitive)
    requires OkPrimitive(p)
    ensures ReadPrimitive(PrimitiveBytes(p)) == Some(p)
  {
    hide TagOf, FieldsOf, KindOf, KindNamed, NumberOf, OkField, ShapeOf, HasShape, ReadName, ReadU32, ReadFields, FromFields, PutFields, Tag, U32, NoZero;
    var kind, fs := KindOf(p), FieldsOf(p);
    TagHasNoZero(kind);
    KindHasShape(p);
    FieldsName(p);
    NameReads(TagOf(kind), U32(|fs|) + PutFields(fs));
    TagNames(kind);
    U32Reads(|fs|, PutFields(fs));
    FieldsRead(fs, ShapeOf(kind), []);
    assert PutFields(fs) + [] == PutFields(fs);
  }

  /** Equal preimages come from the same primitive with the same values. */
  lemma PrimitivesAreInjective(p: Primitive, q: Primitive)
    requires OkPrimitive(p) && OkPrimitive(q) && PrimitiveBytes(p) == PrimitiveBytes(q)
    ensures p == q
  {
    hide PrimitiveBytes, ReadPrimitive, OkPrimitive;
    PrimitiveReads(p);
    PrimitiveReads(q);
  }
}
