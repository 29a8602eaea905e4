/**
 What checkpoint signers hash. The content of the state picks one of five
 layouts: narrow v6 and v7 with an implied group count, wide v8 to v10 with an
 explicit one and a presence byte, v10 with a fourth identity field. The
 theorem is that no two states share their bytes, across all five.
 */
module CheckpointBytes {
  import opened Prelude
  import opened Bytes
  import opened Codec
  import opened ChainBytes

  datatype Entry = Entry(id: nat, payload: Text)

  /** The applied entries of one surface, by its key. */
  datatype Group = Group(key: Text, entries: seq<Entry>)

  datatype Anchor = Anchor(member: Text, pk: Text)

  datatype Reach = Reach(member: Text, relays: seq<Text>)

  datatype State = State(
    republicId: Text,
    foundingName: Text,
    ruleM: byte,
    ruleN: byte,
    founders: seq<Identity>,
    agenda: Text,
    relays: seq<Text>,
    features: Option<seq<Text>>,
    roster: seq<Identity>,
    groups: seq<Group>,
    consumed: seq<nat>,
    anchors: seq<Anchor>,
    reaches: seq<Reach>,
    upto: nat)

  const FROZEN: seq<Surface> := [Organization, Chat, Memory, Quests, Vault, Wallet]

  function KeyOf(s: Surface): Text {
    Word(SurfaceName(s))
  }

  predicate FrozenKey(k: Text) {
    exists i :: 0 <= i < 6 && k == KeyOf(FROZEN[i])
  }

  // ------------------------------------------------------------- valid states

  predicate OkEntry(e: Entry) {
    e.id <= U64_MAX && Fits(e.payload)
  }

  predicate OkGroup(g: Group) {
    Fits(g.key) && |g.entries| <= U64_MAX && forall i :: 0 <= i < |g.entries| ==> OkEntry(g.entries[i])
  }

  predicate OkAnchor(a: Anchor) {
    Fits(a.member) && Fits(a.pk)
  }

  predicate OkReach(r: Reach) {
    Fits(r.member) && FitsAll(r.relays)
  }

  predicate OkId(n: nat) {
    n <= U64_MAX
  }

  predicate OkTable(t: seq<Identity>) {
    |t| <= U64_MAX && forall i :: 0 <= i < |t| ==> OkIdentity(t[i])
  }

  /** The frozen six in order, then any later surfaces. */
  predicate GroupShape(groups: seq<Group>) {
    && 6 <= |groups| <= U64_MAX
    && (forall i :: 0 <= i < 6 ==> groups[i].key == KeyOf(FROZEN[i]))
    && (forall i :: 6 <= i < |groups| ==> !FrozenKey(groups[i].key))
    && (forall i :: 0 <= i < |groups| ==> OkGroup(groups[i]))
  }

  predicate OkState(s: State) {
    && Fits(s.republicId) && Fits(s.foundingName) && Fits(s.agenda)
    && OkTable(s.founders) && OkTable(s.roster)
    && FitsAll(s.relays) && (s.features.Some? ==> FitsAll(s.features.value))
    && GroupShape(s.groups)
    && |s.consumed| <= U64_MAX && (forall i :: 0 <= i < |s.consumed| ==> OkId(s.consumed[i]))
    && |s.anchors| <= U64_MAX && (forall i :: 0 <= i < |s.anchors| ==> OkAnchor(s.anchors[i]))
    && |s.reaches| <= U64_MAX && (forall i :: 0 <= i < |s.reaches| ==> OkReach(s.reaches[i]))
    && s.upto <= U64_MAX
  }

  // ----------------------------------------------------------------- versions

  datatype Version = V6 | V7 | V8 | V9 | V10

  predicate HasLaterGroup(groups: seq<Group>) {
    exists i :: 0 <= i < |groups| && !FrozenKey(groups[i].key)
  }

  /** The memory group carries the wiki as one commitment entry. */
  predicate Folded(isBase: Text -> bool, groups: seq<Group>) {
    exists i, j :: 0 <= i < |groups| && groups[i].key == KeyOf(Memory) && 0 <= j < |groups[i].entries| && isBase(groups[i].entries[j].payload)
  }

  predicate HasVault(s: State) {
    Keyed(s.founders) || Keyed(s.roster)
  }

  function VersionOf(isBase: Text -> bool, s: State): Version {
    if HasVault(s) then V10
    else if Folded(isBase, s.groups) then V9
    else if HasLaterGroup(s.groups) then V8
    else if s.features.Some? then V7 else V6
  }

  predicate Wide(v: Version) {
    v.V8? || v.V9? || v.V10?
  }

  function VersionTag(v: Version): (t: string)
    ensures Ascii(t) && |t| >= 24
  {
    match v
    case V6 => "molt-chain-checkpoint-v6"
    case V7 => "molt-chain-checkpoint-v7"
    case V8 => "molt-chain-checkpoint-v8"
    case V9 => "molt-chain-checkpoint-v9"
    case V10 => "molt-chain-checkpoint-v10"
  }

  // ------------------------------------------------------------------- layout

  function PutEntry(e: Entry): Text {
    U64(e.id) + Put(e.payload)
  }

  function PutGroup(g: Group): Text {
    Put(g.key) + Run(PutEntry, g.entries)
  }

  function PutAnchor(a: Anchor): Text {
    Put(a.member) + Put(a.pk)
  }

  function PutReach(r: Reach): Text {
    Put(r.member) + Run(Put, r.relays)
  }

  function PutTable(vault: bool, t: seq<Identity>): Text {
    Run((i: Identity) => PutIdentity(vault, i), t)
  }

  function PresenceByte(wide: bool, present: bool): Text {
    if wide then [if present then 1 else 0] else []
  }

  function FeaturePart(f: Option<seq<Text>>): Text {
    if f.Some? then Run(Put, f.value) else []
  }

  function GroupCount(wide: bool, n: nat): Text {
    if wide then U64(n) else []
  }

  /** The sections after the group run. */
  function Tail(s: State): Text {
    Run(U64, s.consumed) + (Run(PutAnchor, s.anchors) + (Run(PutReach, s.reaches) + U64(s.upto)))
  }

  function Middle(v: Version, s: State): Text {
    PresenceByte(Wide(v), s.features.Some?) + (FeaturePart(s.features) + (PutTable(v.V10?, s.roster) +
      (GroupCount(Wide(v), |s.groups|) + (EncodeAll(PutGroup, s.groups) + Tail(s)))))
  }

  function Layout(v: Version, s: State): Text {
    Tag(VersionTag(v)) + (Put(s.republicId) + (Put(s.foundingName) + ([s.ruleM, s.ruleN] +
      (PutTable(v.V10?, s.founders) + (Put(s.agenda) + (Run(Put, s.relays) + Middle(v, s)))))))
  }

  function CanonicalBytes(isBase: Text -> bool, s: State): Text {
    Layout(VersionOf(isBase, s), s)
  }

  // -------------------------------------------------------------- reading back

  function ReadEntry(s: Text): Option<(Entry, Text)> {
    var (id, s1) :- ReadU64(s);
    var (payload, s2) :- ReadField(s1);
    Some((Entry(id, payload), s2))
  }

  function ReadGroup(s: Text): Option<(Group, Text)> {
    var (key, s1) :- ReadField(s);
    var (entries, s2) :- ReadRun(ReadEntry, s1);
    Some((Group(key, entries), s2))
  }

  function ReadAnchor(s: Text): Option<(Anchor, Text)> {
    var (member, s1) :- ReadField(s);
    var (pk, s2) :- ReadField(s1);
    Some((Anchor(member, pk), s2))
  }

  function ReadReach(s: Text): Option<(Reach, Text)> {
    var (member, s1) :- ReadField(s);
    var (relays, s2) :- ReadRun(ReadField, s1);
    Some((Reach(member, relays), s2))
  }

  function ReadTable(vault: bool, s: Text): Option<(seq<Identity>, Text)> {
    ReadRun(t => ReadIdentity(vault, t), s)
  }

  /** The version tag, tried from the oldest. */
  function ReadVersion(s: Text): Option<(Version, Text)> {
    var v6, v7, v8, v9 := ReadTag("molt-chain-checkpoint-v6", s), ReadTag("molt-chain-checkpoint-v7", s),
                          ReadTag("molt-chain-checkpoint-v8", s), ReadTag("molt-chain-checkpoint-v9", s);
    if v6.Some? then Some((V6, v6.value))
    else if v7.Some? then Some((V7, v7.value))
    else if v8.Some? then Some((V8, v8.value))
    else if v9.Some? then Some((V9, v9.value))
    else
      var v10 :- ReadTag("molt-chain-checkpoint-v10", s);
      Some((V10, v10))
  }

  function ReadPresent(s: Text): Option<(Option<seq<Text>>, Text)> {
    var (features, rest) :- ReadRun(ReadField, s);
    Some((Some(features), rest))
  }

  /** V6 has no features, V7 has them, from V8 on a byte says. */
  function ReadFeatureSet(v: Version, s: Text): Option<(Option<seq<Text>>, Text)> {
    match v
    case V6 => Some((None, s))
    case V7 => ReadPresent(s)
    case _ =>
      var (present, s1) :- ReadByte(s);
      if present == 0 then Some((None, s1)) else if present == 1 then ReadPresent(s1) else None
  }

  /** Six groups up to V7, a count before them from V8 on. */
  function ReadGroups(v: Version, s: Text): Option<(seq<Group>, Text)> {
    if v.V6? || v.V7? then ReadMany(ReadGroup, 6, s) else ReadRun(ReadGroup, s)
  }

  datatype Ledger = Ledger(consumed: seq<nat>, anchors: seq<Anchor>, reaches: seq<Reach>, upto: nat)

  function ReadTail(s: Text): Option<Ledger> {
    var (consumed, s1) :- ReadRun(ReadU64, s);
    var (anchors, s2) :- ReadRun(ReadAnchor, s1);
    var (reaches, s3) :- ReadRun(ReadReach, s2);
    var (upto, s4) :- ReadU64(s3);
    if s4 == [] then Some(Ledger(consumed, anchors, reaches, upto)) else None
  }

  datatype Core = Core(features: Option<seq<Text>>, roster: seq<Identity>, groups: seq<Group>, ledger: Ledger)

  function ReadMiddle(v: Version, s: Text): Option<Core> {
    var (features, s1) :- ReadFeatureSet(v, s);
    var (roster, s2) :- ReadTable(v.V10?, s1);
    var (groups, s3) :- ReadGroups(v, s2);
    var ledger :- ReadTail(s3);
    Some(Core(features, roster, groups, ledger))
  }

  /** The whole layout of one version, after its tag. */
  function ReadState(v: Version, s: Text): Option<State> {
    var (rid, s1) :- ReadField(s);
    var (name, s2) :- ReadField(s1);
    var (ruleM, s3) :- ReadByte(s2);
    var (ruleN, s4) :- ReadByte(s3);
    var (founders, s5) :- ReadTable(v.V10?, s4);
    var (agenda, s6) :- ReadField(s5);
    var (relays, s7) :- ReadRun(ReadField, s6);
    var c :- ReadMiddle(v, s7);
    Some(State(rid, name, ruleM, ruleN, founders, agenda, relays, c.features, c.roster, c.groups,
               c.ledger.consumed, c.ledger.anchors, c.ledger.reaches, c.ledger.upto))
  }

  function ReadCheckpoint(s: Text): Option<State> {
    var (v, rest) :- ReadVersion(s);
    ReadState(v, rest)
  }

  // ------------------------------------------------------------- value by value

  lemma EntriesReadBack()
    ensures ReadsBack(PutEntry, OkEntry, ReadEntry)
  {
    forall e, x | OkEntry(e)
      ensures ReadEntry(PutEntry(e) + x) == Some((e, x))
    {
      hide Put, U64, ReadField, ReadU64;
      assert PutEntry(e) + x == U64(e.id) + (Put(e.payload) + x);
      U64Reads(e.id, Put(e.payload) + x);
      FieldReads(e.payload, x);
    }
  }

  lemma GroupsReadBack()
    ensures ReadsBack(PutGroup, OkGroup, ReadGroup)
  {
    forall g, x | OkGroup(g)
      ensures ReadGroup(PutGroup(g) + x) == Some((g, x))
    {
      hide Put, Run, ReadField, ReadRun;
      assert PutGroup(g) + x == Put(g.key) + (Run(PutEntry, g.entries) + x);
      FieldReads(g.key, Run(PutEntry, g.entries) + x);
      EntriesReadBack();
      RunReads(PutEntry, OkEntry, ReadEntry, g.entries, x);
    }
  }

  lemma AnchorsReadBack()
    ensures ReadsBack(PutAnchor, OkAnchor, ReadAnchor)
  {
    forall a, x | OkAnchor(a)
      ensures ReadAnchor(PutAnchor(a) + x) == Some((a, x))
    {
      hide Put, ReadField;
      assert PutAnchor(a) + x == Put(a.member) + (Put(a.pk) + x);
      FieldReads(a.member, Put(a.pk) + x);
      FieldReads(a.pk, x);
    }
  }

  lemma ReachesReadBack()
    ensures ReadsBack(PutReach, OkReach, ReadReach)
  {
    forall r, x | OkReach(r)
      ensures ReadReach(PutReach(r) + x) == Some((r, x))
    {
      hide Put, Run, ReadField, ReadRun, FitsAll;
      assert PutReach(r) + x == Put(r.member) + (Run(Put, r.relays) + x);
      FieldReads(r.member, Run(Put, r.relays) + x);
      TextRunReads(r.relays, x);
    }
  }

  lemma IdsReadBack()
    ensures ReadsBack(U64, OkId, ReadU64)
  {
    forall n: nat, x: Text | OkId(n)
      ensures ReadU64(U64(n) + x) == Some((n, x))
    {
      U64Reads(n, x);
    }
  }

  // -------------------------------------------------------------- section by section

  lemma TailReads(s: State)
    requires OkState(s)
    ensures ReadTail(Tail(s)) == Some(Ledger(s.consumed, s.anchors, s.reaches, s.upto))
  {
    hide Run, U64, GroupShape, OkTable, ReadRun, ReadU64, FitsAll;
    var s2 := Run(PutReach, s.reaches) + U64(s.upto);
    var s1 := Run(PutAnchor, s.anchors) + s2;
    IdsReadBack();
    RunReads(U64, OkId, ReadU64, s.consumed, s1);
    AnchorsReadBack();
    RunReads(PutAnchor, OkAnchor, ReadAnchor, s.anchors, s2);
    ReachesReadBack();
    RunReads(PutReach, OkReach, ReadReach, s.reaches, U64(s.upto));
    U64Reads(s.upto, []);
    assert U64(s.upto) + [] == U64(s.upto);
  }

  lemma TableReads(vault: bool, t: seq<Identity>, x: Text)
    requires OkTable(t) && (!vault ==> !Keyed(t))
    ensures ReadTable(vault, PutTable(vault, t) + x) == Some((t, x))
  {
    hide PutIdentity, OkIdentity, ReadIdentity;
    IdentitiesReadBack(vault);
    RunReads((i: Identity) => PutIdentity(vault, i), (i: Identity) => TableIdentity(vault, i), (b: Text) => ReadIdentity(vault, b), t, x);
  }

  lemma {:induction false} GroupsRead(v: Version, groups: seq<Group>, x: Text)
    requires |groups| <= U64_MAX && (!Wide(v) ==> |groups| == 6) && forall i :: 0 <= i < |groups| ==> OkGroup(groups[i])
    ensures ReadGroups(v, GroupCount(Wide(v), |groups|) + (EncodeAll(PutGroup, groups) + x)) == Some((groups, x))
  {
    hide OkGroup, ReadsBack, EncodeAll, ReadMany, ReadRun, U64;
    GroupsReadBack();
    if Wide(v) {
      assert GroupCount(true, |groups|) + (EncodeAll(PutGroup, groups) + x) == Run(PutGroup, groups) + x;
      RunReads(PutGroup, OkGroup, ReadGroup, groups, x);
    } else {
      assert GroupCount(false, |groups|) + (EncodeAll(PutGroup, groups) + x) == EncodeAll(PutGroup, groups) + x;
      ManyRead(PutGroup, OkGroup, ReadGroup, groups, x);
    }
  }

  lemma FeatureSetReads(v: Version, f: Option<seq<Text>>, x: Text)
    requires (f.Some? ==> FitsAll(f.value)) && (v.V6? ==> f.None?) && (v.V7? ==> f.Some?)
    ensures ReadFeatureSet(v, PresenceByte(Wide(v), f.Some?) + (FeaturePart(f) + x)) == Some((f, x))
  {
    hide Run, ReadRun, FitsAll;
    if f.Some? { TextRunReads(f.value, x); }
    assert f.None? ==> FeaturePart(f) + x == x;
    assert [] + (FeaturePart(f) + x) == FeaturePart(f) + x;
    ByteReads(if f.Some? then 1 else 0, FeaturePart(f) + x);
  }

  lemma SeventhIsLater(s: State)
    requires OkState(s) && |s.groups| > 6
    ensures HasLaterGroup(s.groups)
  {
    hide OkGroup, FrozenKey, OkTable;
    assert !FrozenKey(s.groups[6].key);
  }

  /** A narrow layout has exactly the frozen six groups. */
  lemma NarrowGroups(isBase: Text -> bool, s: State)
    requires OkState(s) && !Wide(VersionOf(isBase, s))
    ensures |s.groups| == 6
  {
    hide OkGroup, FrozenKey, OkTable, HasLaterGroup;
    if |s.groups| > 6 { SeventhIsLater(s); }
  }

  lemma GroupsAreOk(groups: seq<Group>)
    requires GroupShape(groups)
    ensures |groups| <= U64_MAX && forall i :: 0 <= i < |groups| ==> OkGroup(groups[i])
  {
    hide OkGroup, FrozenKey;
  }

  lemma MiddleReads(isBase: Text -> bool, s: State)
    requires OkState(s)
    ensures var v := VersionOf(isBase, s);
            ReadMiddle(v, Middle(v, s)) == Some(Core(s.features, s.roster, s.groups, Ledger(s.consumed, s.anchors, s.reaches, s.upto)))
  {
    hide U64, EncodeAll, PutTable, PresenceByte, FeaturePart, GroupCount, Tail, GroupShape, OkTable, Folded, HasLaterGroup, Keyed,
         ReadFeatureSet, ReadTable, ReadGroups, ReadTail, FitsAll;
    var v := VersionOf(isBase, s);
    var s3 := GroupCount(Wide(v), |s.groups|) + (EncodeAll(PutGroup, s.groups) + Tail(s));
    FeatureSetReads(v, s.features, PutTable(v.V10?, s.roster) + s3);
    TableReads(v.V10?, s.roster, s3);
    if !Wide(v) { NarrowGroups(isBase, s); }
    GroupsAreOk(s.groups);
    GroupsRead(v, s.groups, Tail(s));
    TailReads(s);
  }

  lemma VersionReads(v: Version, x: Text)
    ensures ReadVersion(Tag(VersionTag(v)) + x) == Some((v, x))
  {
    hide ReadTag;
    var tag := VersionTag(v);
    assert tag[23] == (match v case V6 => '6' case V7 => '7' case V8 => '8' case V9 => '9' case V10 => '1');
    TagReads(tag, x);
    if !v.V6? { TagRefused(tag, "molt-chain-checkpoint-v6", 23, x); }
    if !v.V7? { TagRefused(tag, "molt-chain-checkpoint-v7", 23, x); }
    if !v.V8? { TagRefused(tag, "molt-chain-checkpoint-v8", 23, x); }
    if !v.V9? { TagRefused(tag, "molt-chain-checkpoint-v9", 23, x); }
  }

  lemma VersionCancel(v: Version, w: Version, x: Text, y: Text)
    requires Tag(VersionTag(v)) + x == Tag(VersionTag(w)) + y
    ensures v == w && x == y
  {
    hide ReadVersion, Tag, VersionTag;
    VersionReads(v, x);
    VersionReads(w, y);
  }

  /** The content picks the version the bytes open with: keys, a folded wiki, a later surface, features, in that order. */
  lemma VersionIs(isBase: Text -> bool, s: State)
    ensures var read := ReadVersion(CanonicalBytes(isBase, s));
            && read.Some?
            && (read.value.0.V10? <==> VaultState(s))
            && (read.value.0.V9? <==> !VaultState(s) && FoldedState(isBase, s))
            && (read.value.0.V8? <==> !VaultState(s) && !FoldedState(isBase, s) && LaterState(s))
            && (read.value.0.V7? <==> !VaultState(s) && !FoldedState(isBase, s) && !LaterState(s) && s.features.Some?)
  {
    hide ReadVersion, Tag, VersionTag, Middle, Put, PutTable, HasLaterGroup, Folded, HasVault, VaultState, FoldedState, LaterState;
    var v := VersionOf(isBase, s);
    VersionReads(v, Put(s.republicId) + (Put(s.foundingName) + ([s.ruleM, s.ruleN] +
      (PutTable(v.V10?, s.founders) + (Put(s.agenda) + (Run(Put, s.relays) + Middle(v, s)))))));
    VaultIs(s);
    FoldedIs(isBase, s);
    LaterIs(s);
  }

  /** Some identity of either table has a vault key. */
  ghost predicate VaultState(s: State) {
    exists i :: i in s.founders + s.roster && i.vaultPk != []
  }

  /** Some entry under "memory" is a wiki base. */
  ghost predicate FoldedState(isBase: Text -> bool, s: State) {
    exists g, e :: g in s.groups && g.key == Word("memory") && e in g.entries && isBase(e.payload)
  }

  /** Some surface is none of the six of old. */
  ghost predicate LaterState(s: State) {
    exists g :: g in s.groups
                && g.key !in [Word("organization"), Word("chat"), Word("memory"), Word("quests"), Word("vault"), Word("wallet")]
  }

  lemma FoldedIs(isBase: Text -> bool, s: State)
    ensures Folded(isBase, s.groups) <==> FoldedState(isBase, s)
  {
    if FoldedState(isBase, s) {
      var g, e :| g in s.groups && g.key == Word("memory") && e in g.entries && isBase(e.payload);
      var i :| 0 <= i < |s.groups| && s.groups[i] == g;
      var j :| 0 <= j < |g.entries| && g.entries[j] == e;
    }
  }

  lemma LaterIs(s: State)
    ensures HasLaterGroup(s.groups) <==> LaterState(s)
  {
    forall g | g in s.groups
      ensures FrozenKey(g.key) <==> g.key in [Word("organization"), Word("chat"), Word("memory"), Word("quests"), Word("vault"), Word("wallet")]
    {
      FrozenIs(g.key);
    }
    hide FrozenKey;
    if LaterState(s) {
      var g :| g in s.groups && !FrozenKey(g.key);
      var i :| 0 <= i < |s.groups| && s.groups[i] == g;
    }
    if i :| 0 <= i < |s.groups| && !FrozenKey(s.groups[i].key) {
      assert s.groups[i] in s.groups;
    }
  }

  lemma FrozenIs(k: Text)
    ensures FrozenKey(k) <==> k in [Word("organization"), Word("chat"), Word("memory"), Word("quests"), Word("vault"), Word("wallet")]
  {
    var six := [Word("organization"), Word("chat"), Word("memory"), Word("quests"), Word("vault"), Word("wallet")];
    assert forall i :: 0 <= i < 6 ==> KeyOf(FROZEN[i]) == six[i];
  }

  lemma VaultIs(s: State)
    ensures HasVault(s) <==> VaultState(s)
  {
    if VaultState(s) {
      var i :| i in s.founders + s.roster && i.vaultPk != [];
      assert i in s.founders || i in s.roster;
    }
    if HasVault(s) {
      if k :| 0 <= k < |s.founders| && s.founders[k].vaultPk != [] { assert s.founders[k] in s.founders + s.roster; }
      if k :| 0 <= k < |s.roster| && s.roster[k].vaultPk != [] { assert s.roster[k] in s.founders + s.roster; }
    }
  }

  /** Every checkpoint state is read back from its canonical bytes, whatever version its content picks. */
  lemma CheckpointReads(isBase: Text -> bool, s: State)
    requires OkState(s)
    ensures ReadCheckpoint(CanonicalBytes(isBase, s)) == Some(s)
  {
    hide Put, Run, U64, Tag, PutTable, Middle, VersionTag, GroupShape, OkTable, Folded, HasLaterGroup, Keyed,
         ReadVersion, ReadField, ReadByte, ReadTable, ReadRun, ReadMiddle, FitsAll;
    var v := VersionOf(isBase, s);
    var s7 := Middle(v, s);
    var s6 := Run(Put, s.relays) + s7;
    var s5 := Put(s.agenda) + s6;
    var s4 := PutTable(v.V10?, s.founders) + s5;
    var s2 := [s.ruleM, s.ruleN] + s4;
    VersionReads(v, Put(s.republicId) + (Put(s.foundingName) + s2));
    FieldReads(s.republicId, Put(s.foundingName) + s2);
    FieldReads(s.foundingName, s2);
    TwoBytesRead(s.ruleM, s.ruleN, s4);
    TableReads(v.V10?, s.founders, s5);
    FieldReads(s.agenda, s6);
    TextRunReads(s.relays, s7);
    MiddleReads(isBase, s);
  }

  /** No two checkpoint states share their canonical bytes. */
  lemma CanonicalIsInjective(isBase: Text -> bool, s: State, t: State)
    requires OkState(s) && OkState(t) && CanonicalBytes(isBase, s) == CanonicalBytes(isBase, t)
    ensures s == t
  {
    hide CanonicalBytes, ReadCheckpoint, OkState;
    CheckpointReads(isBase, s);
    CheckpointReads(isBase, t);
  }
}
