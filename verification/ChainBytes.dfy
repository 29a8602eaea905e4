/**
 What members sign and what a block's hash is taken over. The approval bytes
 determine what was approved, although a membership change appends its later
 fields only when present and a founding table picks its version by content;
 so two chains with one head agree block by block.
 */
module ChainBytes {
  import opened Prelude
  import opened Bytes
  import opened Codec
  import opened Sorting

  datatype MembershipOp = Joined | Restored

  datatype Identity = Identity(member: Text, identityPk: Text, nostrPk: Text, vaultPk: Text)

  datatype Surface = Organization | Chat | Memory | Quests | Vault | Wallet | Files

  /** A payload is its canonical JSON bytes. */
  datatype Change =
    | Genesis(name: Text, republicId: Text, ruleM: byte, ruleN: byte, identities: seq<Identity>,
              agenda: Text, relays: seq<Text>, features: Option<seq<Text>>)
    | Applied(proposalId: nat, surface: Surface, payload: Text)
    | Membership(op: MembershipOp, member: Text, identityPk: Text, nostrPk: Option<Text>,
                 relays: seq<Text>, consent: Option<Text>)
    | Checkpoint(upto: nat, stateHash: Text)
    | CheckpointFolded(upto: nat, stateHash: Text)
    | CheckpointVault(upto: nat, stateHash: Text, wikiFolded: bool)

  datatype Signature = Signature(member: Text, sig: Text)

  datatype Block = Block(height: nat, prev: Text, change: Change, sigs: seq<Signature>)

  function SurfaceName(s: Surface): (n: string)
    ensures Ascii(n) && |n| <= 12
  {
    match s
    case Organization => "organization"
    case Chat => "chat"
    case Memory => "memory"
    case Quests => "quests"
    case Vault => "vault"
    case Wallet => "wallet"
    case Files => "files"
  }

  // ------------------------------------------- what the source can frame at all

  predicate OkIdentity(i: Identity) {
    Fits(i.member) && Fits(i.identityPk) && Fits(i.nostrPk) && Fits(i.vaultPk)
  }

  predicate OkChange(c: Change) {
    match c
    case Genesis(_, rid, _, _, identities, agenda, relays, features) =>
      && Fits(rid) && Fits(agenda)
      && |identities| <= U32_MAX && (forall i :: 0 <= i < |identities| ==> OkIdentity(identities[i]))
      && |relays| <= U32_MAX && FitsAll(relays)
      && (features.Some? ==> |features.value| <= U32_MAX && FitsAll(features.value))
    case Applied(id, _, payload) => id <= U64_MAX && Fits(payload)
    case Membership(_, member, pk, nostr, relays, consent) =>
      && Fits(member) && Fits(pk) && (nostr.Some? ==> Fits(nostr.value))
      && FitsAll(relays) && (consent.Some? ==> Fits(consent.value))
    case Checkpoint(upto, h) => upto <= U64_MAX && Fits(h)
    case CheckpointFolded(upto, h) => upto <= U64_MAX && Fits(h)
    case CheckpointVault(upto, h, _) => upto <= U64_MAX && Fits(h)
  }

  // ----------------------------------------------------------- founding bytes

  predicate Keyed(identities: seq<Identity>) {
    exists i :: 0 <= i < |identities| && identities[i].vaultPk != []
  }

  /** A member's run: three fields, four in a keyed table. */
  function PutIdentity(keyed: bool, i: Identity): (s: Text) {
    Put(i.member) + (Put(i.identityPk) + (Put(i.nostrPk) + (if keyed then Put(i.vaultPk) else [])))
  }

  const ROSTER_V4: string := "molt-roster-v4"
  const ROSTER_V5: string := "molt-roster-v5"
  const ROSTER_V6: string := "molt-roster-v6"

  function RosterTag(keyed: bool, features: Option<seq<Text>>): (t: string)
    ensures Ascii(t) && |t| == 14
  {
    if keyed then ROSTER_V6 else if features.Some? then ROSTER_V5 else ROSTER_V4
  }

  /** What of the feature set is signed: a keyed table always writes a run. */
  function SignedFeatures(keyed: bool, features: Option<seq<Text>>): Option<seq<Text>> {
    if features.None? && keyed then Some([]) else features
  }

  function FeatureRun(f: Option<seq<Text>>): Text {
    if f.Some? then Run32(Put, f.value) else []
  }

  function RosterBytes(c: Change): Text
    requires c.Genesis?
  {
    var keyed := Keyed(c.identities);
    Tag(RosterTag(keyed, c.features)) + (Put(c.republicId) + ([c.ruleM, c.ruleN] +
      (Run32((i: Identity) => PutIdentity(keyed, i), c.identities) + (Put(c.agenda) + (Run32(Put, c.relays) +
        FeatureRun(SignedFeatures(keyed, c.features)))))))
  }

  // ----------------------------------------------------------- approval bytes

  const CHANGE_V2: string := "molt-chain-change-v2"

  function Header(rid: Text, height: nat, kind: byte, body: Text): Text {
    Tag(CHANGE_V2) + (Put(rid) + (U64(height) + ([kind] + body)))
  }

  function PutOption(o: Option<Text>): Text {
    if o.None? then [0] else [1] + Put(o.value)
  }

  /** The conditional extensions: relays under marker 1, consent under marker 2. */
  function Extensions(relays: seq<Text>, consent: Option<Text>): Text {
    (if relays == [] then [] else [1] + Run(Put, relays)) +
    (if consent.None? then [] else [2] + Put(consent.value))
  }

  function ApprovalBytes(rid: Text, height: nat, c: Change): Text {
    match c
    case Genesis(_, _, _, _, _, _, _, _) => RosterBytes(c)
    case Applied(id, surface, payload) =>
      Header(rid, height, 1, U64(id) + (Put(Word(SurfaceName(surface))) + Put(payload)))
    case Membership(op, member, pk, nostr, relays, consent) =>
      Header(rid, height, 2, [if op.Joined? then 0 else 1] + (Put(member) + (Put(pk) +
        (PutOption(nostr) + Extensions(relays, consent)))))
    case Checkpoint(upto, h) => Header(rid, height, 3, U64(upto) + Put(h))
    case CheckpointFolded(upto, h) => Header(rid, height, 4, U64(upto) + Put(h))
    case CheckpointVault(upto, h, folded) =>
      Header(rid, height, 5, [if folded then 1 else 0] + (U64(upto) + Put(h)))
  }

  /** What the signatures pin down: everything but a founding table's display name. */
  predicate SameSigned(rid: Text, height: nat, c: Change, rid': Text, height': nat, c': Change) {
    if c.Genesis? && c'.Genesis? then
      && c.republicId == c'.republicId && c.ruleM == c'.ruleM && c.ruleN == c'.ruleN
      && c.identities == c'.identities && c.agenda == c'.agenda && c.relays == c'.relays
      && SignedFeatures(Keyed(c.identities), c.features) == SignedFeatures(Keyed(c'.identities), c'.features)
    else rid == rid' && height == height' && c == c'
  }

  // -------------------------------------------------------------- reading back

  /** What the signatures of a change bind. */
  datatype Signed =
    | Founding(republicId: Text, ruleM: byte, ruleN: byte, identities: seq<Identity>, agenda: Text,
               relays: seq<Text>, features: Option<seq<Text>>)
    | Later(republicId: Text, height: nat, change: Change)

  function ReadIdentity(keyed: bool, s: Text): Option<(Identity, Text)> {
    var (member, s1) :- ReadField(s);
    var (identityPk, s2) :- ReadField(s1);
    var (nostrPk, s3) :- ReadField(s2);
    if keyed then
      var (vaultPk, s4) :- ReadField(s3);
      Some((Identity(member, identityPk, nostrPk, vaultPk), s4))
    else Some((Identity(member, identityPk, nostrPk, []), s3))
  }

  function ReadFounding(keyed: bool, featured: bool, s: Text): Option<Signed> {
    var (rid, s1) :- ReadField(s);
    var (ruleM, s2) :- ReadByte(s1);
    var (ruleN, s3) :- ReadByte(s2);
    var (identities, s4) :- ReadRun32(t => ReadIdentity(keyed, t), s3);
    var (agenda, s5) :- ReadField(s4);
    var (relays, s6) :- ReadRun32(ReadField, s5);
    var (features, s7) :- if featured then ReadFeatures(s6) else Some((None, s6));
    if s7 == [] then Some(Founding(rid, ruleM, ruleN, identities, agenda, relays, features)) else None
  }

  function ReadFeatures(s: Text): Option<(Option<seq<Text>>, Text)> {
    var (features, rest) :- ReadRun32(ReadField, s);
    Some((Some(features), rest))
  }

  function ReadRoster(s: Text): Option<Signed> {
    var v4, v5 := ReadTag("molt-roster-v4", s), ReadTag("molt-roster-v5", s);
    if v4.Some? then ReadFounding(false, false, v4.value)
    else if v5.Some? then ReadFounding(false, true, v5.value)
    else
      var v6 :- ReadTag("molt-roster-v6", s);
      ReadFounding(true, true, v6)
  }

  function SurfaceNamed(name: Text): Option<Surface> {
    if name == Word("organization") then Some(Organization)
    else if name == Word("chat") then Some(Chat)
    else if name == Word("memory") then Some(Memory)
    else if name == Word("quests") then Some(Quests)
    else if name == Word("vault") then Some(Vault)
    else if name == Word("wallet") then Some(Wallet)
    else if name == Word("files") then Some(Files)
    else None
  }

  function ReadApplied(s: Text): Option<Change> {
    var (id, s1) :- ReadU64(s);
    var (name, s2) :- ReadField(s1);
    var surface :- SurfaceNamed(name);
    var (payload, s3) :- ReadField(s2);
    if s3 == [] then Some(Applied(id, surface, payload)) else None
  }

  function ReadOption(s: Text): Option<(Option<Text>, Text)> {
    var (present, s1) :- ReadByte(s);
    if present == 0 then Some((None, s1))
    else
      var (b, s2) :- ReadField(s1);
      if present == 1 then Some((Some(b), s2)) else None
  }

  /** A run under marker 1, or nothing. */
  function ReadRelays(s: Text): Option<(seq<Text>, Text)> {
    if s != [] && s[0] == 1 then ReadRun(ReadField, s[1..]) else Some(([], s))
  }

  /** A field under marker 2, or nothing. */
  function ReadConsent(s: Text): Option<(Option<Text>, Text)> {
    if s != [] && s[0] == 2 then
      var (b, rest) :- ReadField(s[1..]);
      Some((Some(b), rest))
    else Some((None, s))
  }

  function ReadMembership(s: Text): Option<Change> {
    var (op, s1) :- ReadByte(s);
    var (member, s2) :- ReadField(s1);
    var (identityPk, s3) :- ReadField(s2);
    var (nostrPk, s4) :- ReadOption(s3);
    var (relays, s5) :- ReadRelays(s4);
    var (consent, s6) :- ReadConsent(s5);
    if s6 == [] && op <= 1 then Some(Membership(if op == 0 then Joined else Restored, member, identityPk, nostrPk, relays, consent))
    else None
  }

  function ReadCut(s: Text): Option<(nat, Text)> {
    var (upto, s1) :- ReadU64(s);
    var (h, s2) :- ReadField(s1);
    if s2 == [] then Some((upto, h)) else None
  }

  function ReadVaultCut(s: Text): Option<Change> {
    var (folded, s1) :- ReadByte(s);
    var (upto, h) :- ReadCut(s1);
    if folded <= 1 then Some(CheckpointVault(upto, h, folded == 1)) else None
  }

  function ReadChange(kind: byte, s: Text): Option<Change> {
    match kind
    case 1 => ReadApplied(s)
    case 2 => ReadMembership(s)
    case 3 =>
      var (upto, h) :- ReadCut(s);
      Some(Checkpoint(upto, h))
    case 4 =>
      var (upto, h) :- ReadCut(s);
      Some(CheckpointFolded(upto, h))
    case 5 => ReadVaultCut(s)
    case _ => None
  }

  /** Tag, republic, height, kind and the fields of that kind; a founding has its own versions. */
  function ReadApproval(s: Text): Option<Signed> {
    var later := ReadTag("molt-chain-change-v2", s);
    if later.None? then ReadRoster(s)
    else
      var (rid, s1) :- ReadField(later.value);
      var (height, s2) :- ReadU64(s1);
      var (kind, s3) :- ReadByte(s2);
      var change :- ReadChange(kind, s3);
      Some(Later(rid, height, change))
  }

  predicate TableIdentity(keyed: bool, i: Identity) {
    OkIdentity(i) && (!keyed ==> i.vaultPk == [])
  }

  lemma IdentityReads(keyed: bool, i: Identity, x: Text)
    requires TableIdentity(keyed, i)
    ensures ReadIdentity(keyed, PutIdentity(keyed, i) + x) == Some((i, x))
  {
    hide Put, ReadField;
    var last := if keyed then Put(i.vaultPk) + x else x;
    assert PutIdentity(keyed, i) + x == Put(i.member) + (Put(i.identityPk) + (Put(i.nostrPk) + last));
    FieldReads(i.member, Put(i.identityPk) + (Put(i.nostrPk) + last));
    FieldReads(i.identityPk, Put(i.nostrPk) + last);
    FieldReads(i.nostrPk, last);
    FieldReads(i.vaultPk, x);
  }

  lemma IdentitiesReadBack(keyed: bool)
    ensures ReadsBack((i: Identity) => PutIdentity(keyed, i), (i: Identity) => TableIdentity(keyed, i), (t: Text) => ReadIdentity(keyed, t))
  {
    hide PutIdentity, ReadIdentity, TableIdentity;
    forall i: Identity, x: Text | TableIdentity(keyed, i)
      ensures ReadIdentity(keyed, PutIdentity(keyed, i) + x) == Some((i, x))
    {
      IdentityReads(keyed, i, x);
    }
  }

  lemma RosterTagReads(keyed: bool, features: Option<seq<Text>>, x: Text)
    ensures ReadRoster(Tag(RosterTag(keyed, features)) + x) == ReadFounding(keyed, keyed || features.Some?, x)
    ensures ReadTag("molt-chain-change-v2", Tag(RosterTag(keyed, features)) + x).None?
  {
    hide ReadTag, ReadFounding;
    var tag := RosterTag(keyed, features);
    assert tag[5] == 'r' && tag[13] == if keyed then '6' else if features.Some? then '5' else '4';
    TagRefused(tag, "molt-chain-change-v2", 5, x);
    TagReads(tag, x);
    if tag[13] != '4' { TagRefused(tag, "molt-roster-v4", 13, x); }
    if tag[13] != '5' { TagRefused(tag, "molt-roster-v5", 13, x); }
  }

  lemma FeaturesRead(f: Option<seq<Text>>)
    requires f.Some? ==> |f.value| <= U32_MAX && FitsAll(f.value)
    ensures f.Some? ==> ReadFeatures(FeatureRun(f)) == Some((f, []))
  {
    hide Run32, ReadRun32;
    if f.Some? {
      TextRun32Reads(f.value, []);
      assert FeatureRun(f) + [] == FeatureRun(f);
    }
  }

  /** A founding table reads back as everything but its display name. */
  lemma RosterReads(c: Change)
    requires c.Genesis? && OkChange(c)
    ensures var features := if c.features.None? && (exists i :: 0 <= i < |c.identities| && c.identities[i].vaultPk != []) then Some([]) else c.features;
            ReadRoster(RosterBytes(c)) == Some(Founding(c.republicId, c.ruleM, c.ruleN, c.identities, c.agenda, c.relays, features))
    ensures ReadTag("molt-chain-change-v2", RosterBytes(c)).None?
  {
    hide Put, Run32, Tag, RosterTag, FeatureRun, PutIdentity, ReadField, ReadByte, ReadRun32, ReadRoster, ReadFeatures, ReadTag;
    var keyed := Keyed(c.identities);
    var f := SignedFeatures(keyed, c.features);
    var s6 := FeatureRun(f);
    var s5 := Run32(Put, c.relays) + s6;
    var s4 := Put(c.agenda) + s5;
    var s3 := Run32((i: Identity) => PutIdentity(keyed, i), c.identities) + s4;
    RosterTagReads(keyed, c.features, Put(c.republicId) + ([c.ruleM, c.ruleN] + s3));
    FieldReads(c.republicId, [c.ruleM, c.ruleN] + s3);
    TwoBytesRead(c.ruleM, c.ruleN, s3);
    IdentitiesReadBack(keyed);
    Run32Reads((i: Identity) => PutIdentity(keyed, i), (i: Identity) => TableIdentity(keyed, i), (t: Text) => ReadIdentity(keyed, t), c.identities, s4);
    FieldReads(c.agenda, s5);
    TextRun32Reads(c.relays, s6);
    FeaturesRead(f);
    NoFeatureRun(f);
  }

  lemma NoFeatureRun(f: Option<seq<Text>>)
    ensures f.None? ==> FeatureRun(f) == []
  {
  }

  lemma SurfaceReads(surface: Surface)
    ensures SurfaceNamed(Word(SurfaceName(surface))) == Some(surface)
  {
    var name := Word(SurfaceName(surface));
    assert name[0] == SurfaceName(surface)[0] as int && name[1] == SurfaceName(surface)[1] as int;
  }

  lemma LastFieldReads(b: Text)
    requires Fits(b)
    ensures ReadField(Put(b)) == Some((b, []))
  {
    FieldReads(b, []);
    assert Put(b) + [] == Put(b);
  }

  lemma AppliedReads(id: nat, surface: Surface, payload: Text)
    requires id <= U64_MAX && Fits(payload)
    ensures ReadApplied(U64(id) + (Put(Word(SurfaceName(surface))) + Put(payload))) == Some(Applied(id, surface, payload))
  {
    hide Put, U64, ReadField, ReadU64, SurfaceNamed;
    var name := Word(SurfaceName(surface));
    U64Reads(id, Put(name) + Put(payload));
    FieldReads(name, Put(payload));
    SurfaceReads(surface);
    LastFieldReads(payload);
  }

  lemma OptionReads(o: Option<Text>, x: Text)
    requires o.Some? ==> Fits(o.value)
    ensures ReadOption(PutOption(o) + x) == Some((o, x))
  {
    hide Put, ReadField;
    if o.None? {
      ByteReads(0, x);
    } else {
      assert PutOption(o) + x == [1] + (Put(o.value) + x);
      ByteReads(1, Put(o.value) + x);
      FieldReads(o.value, x);
    }
  }

  function ConsentPart(consent: Option<Text>): Text {
    if consent.None? then [] else [2] + Put(consent.value)
  }

  /** The two markers keep absent, relays, consent and both apart. */
  lemma ExtensionsRead(relays: seq<Text>, consent: Option<Text>)
    requires FitsAll(relays) && (consent.Some? ==> Fits(consent.value))
    ensures ReadRelays(Extensions(relays, consent)) == Some((relays, ConsentPart(consent)))
    ensures ReadConsent(ConsentPart(consent)) == Some((consent, []))
  {
    hide Put, Run, ReadRun, ReadField;
    if relays != [] {
      assert Extensions(relays, consent) == [1] + (Run(Put, relays) + ConsentPart(consent));
      TextRunReads(relays, ConsentPart(consent));
    } else {
      assert Extensions(relays, consent) == ConsentPart(consent);
    }
    if consent.Some? { LastFieldReads(consent.value); }
  }

  lemma ExtensionsCancel(ra: seq<Text>, ca: Option<Text>, rb: seq<Text>, cb: Option<Text>)
    requires FitsAll(ra) && FitsAll(rb) && (ca.Some? ==> Fits(ca.value)) && (cb.Some? ==> Fits(cb.value))
    requires Extensions(ra, ca) == Extensions(rb, cb)
    ensures ra == rb && ca == cb
  {
    hide Extensions, ReadRelays, ReadConsent, ConsentPart, FitsAll;
    ExtensionsRead(ra, ca);
    ExtensionsRead(rb, cb);
  }

  lemma MembershipReads(c: Change)
    requires c.Membership? && OkChange(c)
    ensures ReadMembership([if c.op.Joined? then 0 else 1] + (Put(c.member) + (Put(c.identityPk) +
              (PutOption(c.nostrPk) + Extensions(c.relays, c.consent))))) == Some(c)
  {
    hide Put, PutOption, Extensions, ReadField, ReadByte, ReadOption, ReadRelays, ReadConsent, FitsAll;
    var ext := Extensions(c.relays, c.consent);
    ByteReads(if c.op.Joined? then 0 else 1, Put(c.member) + (Put(c.identityPk) + (PutOption(c.nostrPk) + ext)));
    FieldReads(c.member, Put(c.identityPk) + (PutOption(c.nostrPk) + ext));
    FieldReads(c.identityPk, PutOption(c.nostrPk) + ext);
    OptionReads(c.nostrPk, ext);
    ExtensionsRead(c.relays, c.consent);
  }

  lemma CutReads(upto: nat, h: Text)
    requires upto <= U64_MAX && Fits(h)
    ensures ReadCut(U64(upto) + Put(h)) == Some((upto, h))
  {
    hide Put, U64, ReadField, ReadU64;
    U64Reads(upto, Put(h));
    LastFieldReads(h);
  }

  lemma VaultCutReads(upto: nat, h: Text, folded: bool)
    requires upto <= U64_MAX && Fits(h)
    ensures ReadVaultCut([if folded then 1 else 0] + (U64(upto) + Put(h))) == Some(CheckpointVault(upto, h, folded))
  {
    hide Put, U64, ReadCut, ReadByte;
    ByteReads(if folded then 1 else 0, U64(upto) + Put(h));
    CutReads(upto, h);
  }

  lemma HeaderReads(rid: Text, height: nat, kind: byte, body: Text)
    requires Fits(rid) && height <= U64_MAX
    ensures var change := ReadChange(kind, body);
            ReadApproval(Header(rid, height, kind, body)) == if change.None? then None else Some(Later(rid, height, change.value))
  {
    hide Put, U64, Tag, ReadField, ReadU64, ReadTag, ReadChange, ReadByte;
    TagReads("molt-chain-change-v2", Put(rid) + (U64(height) + ([kind] + body)));
    FieldReads(rid, U64(height) + ([kind] + body));
    U64Reads(height, [kind] + body);
    ByteReads(kind, body);
  }

  /** The approval bytes read back as republic, height and change, or as the founding table. */
  lemma ApprovalReads(rid: Text, height: nat, c: Change)
    requires Fits(rid) && height <= U64_MAX && OkChange(c)
    ensures !c.Genesis? ==> ReadApproval(ApprovalBytes(rid, height, c)) == Some(Later(rid, height, c))
    ensures c.Genesis? ==> ReadApproval(ApprovalBytes(rid, height, c)) == ReadRoster(RosterBytes(c))
  {
    hide Header, Put, U64, PutOption, Extensions, RosterBytes, ReadApproval, ReadRoster, ReadApplied, ReadMembership, ReadCut, ReadVaultCut, FitsAll;
    match c
    case Genesis(_, _, _, _, _, _, _, _) =>
      RosterReads(c);
      NotLater(RosterBytes(c));
    case Applied(id, surface, payload) =>
      AppliedReads(id, surface, payload);
      HeaderReads(rid, height, 1, U64(id) + (Put(Word(SurfaceName(surface))) + Put(payload)));
    case Membership(op, member, pk, nostr, relays, consent) =>
      MembershipReads(c);
      HeaderReads(rid, height, 2, [if op.Joined? then 0 else 1] + (Put(member) + (Put(pk) + (PutOption(nostr) + Extensions(relays, consent)))));
    case Checkpoint(upto, h) =>
      CutReads(upto, h);
      HeaderReads(rid, height, 3, U64(upto) + Put(h));
    case CheckpointFolded(upto, h) =>
      CutReads(upto, h);
      HeaderReads(rid, height, 4, U64(upto) + Put(h));
    case CheckpointVault(upto, h, folded) =>
      VaultCutReads(upto, h, folded);
      HeaderReads(rid, height, 5, [if folded then 1 else 0] + (U64(upto) + Put(h)));
  }

  lemma NotLater(s: Text)
    requires ReadTag("molt-chain-change-v2", s).None?
    ensures ReadApproval(s) == ReadRoster(s)
  {
  }

  lemma RosterCancel(c: Change, d: Change)
    requires c.Genesis? && d.Genesis? && OkChange(c) && OkChange(d) && RosterBytes(c) == RosterBytes(d)
    ensures SameSigned([], 0, c, [], 0, d)
  {
    hide RosterBytes, ReadRoster, ReadTag, OkChange;
    RosterReads(c);
    RosterReads(d);
  }

  lemma RosterIsFounding(c: Change)
    requires c.Genesis? && OkChange(c)
    ensures ReadRoster(RosterBytes(c)).Some? && ReadRoster(RosterBytes(c)).value.Founding?
  {
    hide RosterBytes, ReadRoster, ReadTag;
    RosterReads(c);
  }

  /** The approval bytes agree exactly when what they sign agrees. */
  lemma ApprovalIsExact(rid: Text, height: nat, c: Change, rid': Text, height': nat, c': Change)
    requires Fits(rid) && Fits(rid') && height <= U64_MAX && height' <= U64_MAX && OkChange(c) && OkChange(c')
    ensures ApprovalBytes(rid, height, c) == ApprovalBytes(rid', height', c') <==> SameSigned(rid, height, c, rid', height', c')
  {
    hide Header, Put, U64, PutOption, Extensions, OkChange, RosterBytes, ReadApproval, ReadRoster;
    ApprovalReads(rid, height, c);
    ApprovalReads(rid', height', c');
    if c.Genesis? { RosterIsFounding(c); }
    if c'.Genesis? { RosterIsFounding(c'); }
    if c.Genesis? && c'.Genesis? {
      if RosterBytes(c) == RosterBytes(c') { RosterCancel(c, c'); }
      if SameSigned(rid, height, c, rid', height', c') { SameRosterBytes(c, c'); }
    }
  }

  lemma SameRosterBytes(c: Change, d: Change)
    requires c.Genesis? && d.Genesis? && SameSigned([], 0, c, [], 0, d)
    ensures RosterBytes(c) == RosterBytes(d)
  {
    hide Put, Run32;
    assert Keyed(c.identities) == Keyed(d.identities);
  }

  // --------------------------------------------------------------- block links

  /** Signatures in the order of (member, signature). */
  predicate SigLe(a: Signature, b: Signature) {
    if a.member == b.member then LexLe(a.sig, b.sig) else LexLe(a.member, b.member)
  }

  lemma SigOrder()
    ensures TotalPreorder(SigLe) && Antisymmetric(SigLe)
  {
    forall x, y
      ensures SigLe(x, y) || SigLe(y, x)
    {
      LexTotal(x.member, y.member);
      LexTotal(x.sig, y.sig);
    }
    forall x, y, z | SigLe(x, y) && SigLe(y, z)
      ensures SigLe(x, z)
    {
      SigTransitive(x, y, z);
    }
    forall x, y | SigLe(x, y) && SigLe(y, x)
      ensures x == y
    {
      if x.member == y.member {
        LexAntisymmetric(x.sig, y.sig);
      } else {
        LexAntisymmetric(x.member, y.member);
      }
    }
  }

  lemma SigTransitive(x: Signature, y: Signature, z: Signature)
    requires SigLe(x, y) && SigLe(y, z)
    ensures SigLe(x, z)
  {
    if x.member == y.member && y.member == z.member {
      LexTransitive(x.sig, y.sig, z.sig);
    } else if x.member == z.member {
      LexAntisymmetric(x.member, y.member);
    } else if x.member != y.member && y.member != z.member {
      LexTransitive(x.member, y.member, z.member);
    }
  }

  function PutSig(s: Signature): (b: Text)
    ensures b != []
  {
    Put(s.member) + Put(s.sig)
  }

  predicate OkSig(s: Signature) {
    Fits(s.member) && Fits(s.sig)
  }

  function ReadSig(s: Text): Option<(Signature, Text)> {
    var (member, s1) :- ReadField(s);
    var (sig, s2) :- ReadField(s1);
    Some((Signature(member, sig), s2))
  }

  lemma SigsReadBack()
    ensures ReadsBack(PutSig, OkSig, ReadSig)
  {
    forall v, x | OkSig(v)
      ensures ReadSig(PutSig(v) + x) == Some((v, x))
    {
      hide Put, ReadField;
      assert PutSig(v) + x == Put(v.member) + (Put(v.sig) + x);
      FieldReads(v.member, Put(v.sig) + x);
      FieldReads(v.sig, x);
    }
  }

  const BLOCK_V1: string := "molt-chain-block-v1"

  function SortedSigs(b: Block): seq<Signature> {
    Sort(SigLe, b.sigs)
  }

  function LinkBytes(rid: Text, b: Block): Text {
    Tag(BLOCK_V1) + (U64(b.height) + (Put(b.prev) + (Put(ApprovalBytes(rid, b.height, b.change)) + EncodeAll(PutSig, SortedSigs(b)))))
  }

  predicate OkBlock(rid: Text, b: Block) {
    && Fits(rid) && b.height <= U64_MAX && Fits(b.prev) && OkChange(b.change)
    && Fits(ApprovalBytes(rid, b.height, b.change))
    && forall i :: 0 <= i < |b.sigs| ==> OkSig(b.sigs[i])
  }

  lemma SortedOk(b: Block)
    requires forall i :: 0 <= i < |b.sigs| ==> OkSig(b.sigs[i])
    ensures forall i :: 0 <= i < |SortedSigs(b)| ==> OkSig(SortedSigs(b)[i])
  {
    hide Sort;
    MultisetMembers(SortedSigs(b), b.sigs);
    forall i | 0 <= i < |SortedSigs(b)|
      ensures OkSig(SortedSigs(b)[i])
    {
      assert SortedSigs(b)[i] in b.sigs;
    }
  }

  lemma SortedSame(a: Block, b: Block)
    ensures SortedSigs(a) == SortedSigs(b) <==> multiset(a.sigs) == multiset(b.sigs)
  {
    hide Sort, SigLe;
    SigOrder();
    SortSorted(SigLe, a.sigs);
    SortSorted(SigLe, b.sigs);
    if multiset(a.sigs) == multiset(b.sigs) {
      SortedUnique(SigLe, SortedSigs(a), SortedSigs(b));
    }
  }

  // ------------------------------------------------------------- reading a link

  datatype Link = Link(height: nat, prev: Text, approval: Text, sigs: seq<Signature>)

  function ReadLink(s: Text): Option<Link> {
    var s1 :- ReadTag("molt-chain-block-v1", s);
    var (height, s2) :- ReadU64(s1);
    var (prev, s3) :- ReadField(s2);
    var (approval, s4) :- ReadField(s3);
    var sigs :- ReadAll(ReadSig, s4);
    Some(Link(height, prev, approval, sigs))
  }

  /** By member, then by signature, as byte strings. */
  ghost predicate InSigOrder(sigs: seq<Signature>) {
    forall i, j :: 0 <= i < j < |sigs| ==>
      Precedes(sigs[i].member, sigs[j].member)
      || (sigs[i].member == sigs[j].member && (sigs[i].sig == sigs[j].sig || Precedes(sigs[i].sig, sigs[j].sig)))
  }

  lemma SortedInOrder(b: Block)
    ensures InSigOrder(SortedSigs(b)) && multiset(SortedSigs(b)) == multiset(b.sigs)
  {
    hide Sort, Precedes, LexLe;
    SigOrder();
    SortSorted(SigLe, b.sigs);
    var sigs := SortedSigs(b);
    forall i, j | 0 <= i < j < |sigs|
      ensures Precedes(sigs[i].member, sigs[j].member)
              || (sigs[i].member == sigs[j].member && (sigs[i].sig == sigs[j].sig || Precedes(sigs[i].sig, sigs[j].sig)))
    {
      assert SigLe(sigs[i], sigs[j]);
      LexLeIs(sigs[i].member, sigs[j].member);
      LexLeIs(sigs[i].sig, sigs[j].sig);
    }
  }

  lemma LinkFields(rid: Text, b: Block)
    requires OkBlock(rid, b)
    ensures ReadLink(LinkBytes(rid, b)) == Some(Link(b.height, b.prev, ApprovalBytes(rid, b.height, b.change), SortedSigs(b)))
  {
    hide Put, U64, Tag, ApprovalBytes, EncodeAll, SortedSigs, OkChange, ReadTag, ReadU64, ReadField, ReadAll;
    var approval, sigs := ApprovalBytes(rid, b.height, b.change), EncodeAll(PutSig, SortedSigs(b));
    TagReads("molt-chain-block-v1", U64(b.height) + (Put(b.prev) + (Put(approval) + sigs)));
    U64Reads(b.height, Put(b.prev) + (Put(approval) + sigs));
    FieldReads(b.prev, Put(approval) + sigs);
    FieldReads(approval, sigs);
    SortedOk(b);
    SigsReadBack();
    AllRead(PutSig, OkSig, ReadSig, SortedSigs(b));
  }

  /** Link bytes read back as height, predecessor, approval bytes and the signatures in order. */
  lemma LinkReads(rid: Text, b: Block)
    requires OkBlock(rid, b)
    ensures var link := ReadLink(LinkBytes(rid, b));
            && link.Some? && link.value.height == b.height && link.value.prev == b.prev
            && link.value.approval == ApprovalBytes(rid, b.height, b.change)
            && InSigOrder(link.value.sigs) && multiset(link.value.sigs) == multiset(b.sigs)
  {
    hide ReadLink, LinkBytes, ApprovalBytes, SortedSigs, InSigOrder, OkBlock;
    LinkFields(rid, b);
    SortedInOrder(b);
  }

  /** Two blocks with the same link carry the same signed change and signatures. */
  ghost predicate SameBlock(rid: Text, a: Block, rid': Text, b: Block) {
    && a.height == b.height && a.prev == b.prev
    && SameSigned(rid, a.height, a.change, rid', b.height, b.change)
    && multiset(a.sigs) == multiset(b.sigs)
  }

  /** The link bytes agree exactly when height, predecessor, signed change and signature multiset do. */
  lemma LinkIsExact(rid: Text, a: Block, rid': Text, b: Block)
    requires OkBlock(rid, a) && OkBlock(rid', b)
    ensures LinkBytes(rid, a) == LinkBytes(rid', b) <==> SameBlock(rid, a, rid', b)
  {
    hide Put, U64, Tag, ApprovalBytes, EncodeAll, SortedSigs, OkChange, SameSigned, ReadLink;
    SortedSame(a, b);
    ApprovalIsExact(rid, a.height, a.change, rid', b.height, b.change);
    LinkFields(rid, a);
    LinkFields(rid', b);
  }

  // -------------------------------------------------------------------- chains

  /** A chain from its genesis: no gaps, each block naming its predecessor's hash. */
  ghost predicate Linked(hash: Text -> Text, rid: Text, chain: seq<Block>, root: Text) {
    && chain != [] && chain[0].prev == root
    && (forall i :: 0 <= i < |chain| ==> chain[i].height == i && OkBlock(rid, chain[i]))
    && (forall i :: 0 <= i < |chain| - 1 ==> chain[i + 1].prev == hash(LinkBytes(rid, chain[i])))
  }

  /** Two different links of the two chains with one hash. */
  ghost predicate Collision(hash: Text -> Text, rid: Text, a: seq<Block>, rid': Text, b: seq<Block>) {
    exists i, j :: 0 <= i < |a| && 0 <= j < |b| &&
                   LinkBytes(rid, a[i]) != LinkBytes(rid', b[j]) && hash(LinkBytes(rid, a[i])) == hash(LinkBytes(rid', b[j]))
  }

  function HeadLink(hash: Text -> Text, rid: Text, chain: seq<Block>): Text
    requires chain != []
  {
    hash(LinkBytes(rid, chain[|chain| - 1]))
  }

  lemma {:induction false} AgreeBelow(hash: Text -> Text, rid: Text, a: seq<Block>, rid': Text, b: seq<Block>, root: Text, k: nat, i: nat)
    requires Linked(hash, rid, a, root) && Linked(hash, rid', b, root) && !Collision(hash, rid, a, rid', b)
    requires i <= k < |a| && k < |b| && hash(LinkBytes(rid, a[k])) == hash(LinkBytes(rid', b[k]))
    ensures SameBlock(rid, a[i], rid', b[i])
    decreases k - i
  {
    hide LinkBytes, SameBlock, OkBlock;
    if i == k {
      assert LinkBytes(rid, a[k]) == LinkBytes(rid', b[k]);
      LinkIsExact(rid, a[k], rid', b[k]);
    } else {
      AgreeBelow(hash, rid, a, rid', b, root, k, i + 1);
      assert a[i + 1].prev == b[i + 1].prev by { SamePrev(rid, a[i + 1], rid', b[i + 1]); }
      assert hash(LinkBytes(rid, a[i])) == hash(LinkBytes(rid', b[i]));
      AgreeBelow(hash, rid, a, rid', b, root, i, i);
    }
  }

  lemma SamePrev(rid: Text, a: Block, rid': Text, b: Block)
    requires SameBlock(rid, a, rid', b)
    ensures a.prev == b.prev && a.height == b.height
  {
  }

  /** One head, one history: unless two of their links collide, chains with one head agree at every height. */
  lemma OneHeadOneHistory(hash: Text -> Text, rid: Text, a: seq<Block>, rid': Text, b: seq<Block>, root: Text)
    requires Linked(hash, rid, a, root) && Linked(hash, rid', b, root)
    requires HeadLink(hash, rid, a) == HeadLink(hash, rid', b)
    ensures Collision(hash, rid, a, rid', b) || (|a| == |b| && forall i :: 0 <= i < |a| ==> SameBlock(rid, a[i], rid', b[i]))
  {
    hide LinkBytes, SameBlock, OkBlock;
    if !Collision(hash, rid, a, rid', b) {
      var n, m := |a| - 1, |b| - 1;
      assert LinkBytes(rid, a[n]) == LinkBytes(rid', b[m]);
      LinkIsExact(rid, a[n], rid', b[m]);
      SamePrev(rid, a[n], rid', b[m]);
      forall i | 0 <= i < |a|
        ensures SameBlock(rid, a[i], rid', b[i])
      {
        AgreeBelow(hash, rid, a, rid', b, root, n, i);
      }
    }
  }
}
