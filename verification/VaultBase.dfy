/**
 The folded vault: encoding sorts, decoding accepts only the sorted,
 duplicate-free, canonical form, so bytes and bases map one to one.
 The JSON of a record enters as a pair of functions, `json` and its reader.
 */
module VaultBase {
  import opened Prelude
  import opened Bytes
  import opened Codec
  import opened Sorting

  datatype Deposit = Deposit(depositor: Text, name: Text, body: Text)
  datatype Grant = Grant(grantId: Text, body: Text)
  datatype VaultOp = DepositOp(deposit: Deposit) | GrantOp(grant: Grant) | OtherOp(body: Text)

  datatype BaseGrant = BaseGrant(proposalId: nat, grant: Grant)
  datatype BaseDeposit = BaseDeposit(deposit: Deposit, grants: seq<BaseGrant>)

  /** The record codec: reading what it wrote gives the record back. */
  datatype Json = Json(write: VaultOp -> Text, read: Text -> Option<VaultOp>)

  ghost predicate JsonOk(j: Json) {
    forall op :: j.read(j.write(op)) == Some(op)
  }

  // -------------------------------------------------------------------- order

  predicate SlotLe(a: BaseDeposit, b: BaseDeposit) {
    if a.deposit.depositor == b.deposit.depositor then LexLe(a.deposit.name, b.deposit.name)
    else LexLe(a.deposit.depositor, b.deposit.depositor)
  }

  predicate SameSlot(a: BaseDeposit, b: BaseDeposit) {
    a.deposit.depositor == b.deposit.depositor && a.deposit.name == b.deposit.name
  }

  predicate GrantLe(a: BaseGrant, b: BaseGrant) {
    LexLe(a.grant.grantId, b.grant.grantId)
  }

  lemma SlotOrder()
    ensures TotalPreorder(SlotLe)
  {
    forall x, y
      ensures SlotLe(x, y) || SlotLe(y, x)
    {
      LexTotal(x.deposit.depositor, y.deposit.depositor);
      LexTotal(x.deposit.name, y.deposit.name);
    }
    forall x, y, z | SlotLe(x, y) && SlotLe(y, z)
      ensures SlotLe(x, z)
    {
      SlotTransitive(x, y, z);
    }
  }

  lemma SlotTransitive(x: BaseDeposit, y: BaseDeposit, z: BaseDeposit)
    requires SlotLe(x, y) && SlotLe(y, z)
    ensures SlotLe(x, z)
  {
    var a, b, c := x.deposit, y.deposit, z.deposit;
    if a.depositor == b.depositor && b.depositor == c.depositor {
      LexTransitive(a.name, b.name, c.name);
    } else if a.depositor == c.depositor {
      LexAntisymmetric(a.depositor, b.depositor);
    } else if a.depositor != b.depositor && b.depositor != c.depositor {
      LexTransitive(a.depositor, b.depositor, c.depositor);
    }
  }

  lemma SlotAntisymmetric(x: BaseDeposit, y: BaseDeposit)
    requires SlotLe(x, y) && SlotLe(y, x)
    ensures SameSlot(x, y)
  {
    if x.deposit.depositor == y.deposit.depositor {
      LexAntisymmetric(x.deposit.name, y.deposit.name);
    } else {
      LexAntisymmetric(x.deposit.depositor, y.deposit.depositor);
    }
  }

  lemma GrantOrder()
    ensures TotalPreorder(GrantLe)
  {
    forall x, y
      ensures GrantLe(x, y) || GrantLe(y, x)
    {
      LexTotal(x.grant.grantId, y.grant.grantId);
    }
    forall x, y, z | GrantLe(x, y) && GrantLe(y, z)
      ensures GrantLe(x, z)
    {
      LexTransitive(x.grant.grantId, y.grant.grantId, z.grant.grantId);
    }
  }

  /** The decoder's test: the new slot is strictly later than the last. */
  predicate After(last: Option<BaseDeposit>, d: BaseDeposit) {
    last.None? || (SlotLe(last.value, d) && !SameSlot(last.value, d))
  }

  predicate GrantAfter(last: Option<BaseGrant>, g: BaseGrant) {
    last.None? || (GrantLe(last.value, g) && last.value.grant.grantId != g.grant.grantId)
  }

  predicate GrantsAscend(last: Option<BaseGrant>, gs: seq<BaseGrant>)
    decreases |gs|
  {
    gs == [] || (GrantAfter(last, gs[0]) && GrantsAscend(Some(gs[0]), gs[1..]))
  }

  predicate Ascend(last: Option<BaseDeposit>, ds: seq<BaseDeposit>)
    decreases |ds|
  {
    ds == [] || (After(last, ds[0]) && GrantsAscend(None, ds[0].grants) && Ascend(Some(ds[0]), ds[1..]))
  }

  // ----------------------------------------------------------------- encoding

  function PutGrant(j: Json, g: BaseGrant): Text {
    U64(g.proposalId) + Put(j.write(GrantOp(g.grant)))
  }

  function PutGrants(j: Json, gs: seq<BaseGrant>): Text {
    if gs == [] then [] else PutGrant(j, gs[0]) + PutGrants(j, gs[1..])
  }

  function PutDeposit(j: Json, d: BaseDeposit): Text {
    Put(j.write(DepositOp(d.deposit))) + (U64(|d.grants|) + PutGrants(j, d.grants))
  }

  function PutDeposits(j: Json, ds: seq<BaseDeposit>): Text {
    if ds == [] then [] else PutDeposit(j, ds[0]) + PutDeposits(j, ds[1..])
  }

  const TAG_BASE: string := "molt-vault-base-v1"

  function SortGrants(d: BaseDeposit): BaseDeposit {
    d.(grants := Sort(GrantLe, d.grants))
  }

  function SortEach(ds: seq<BaseDeposit>): (r: seq<BaseDeposit>)
    ensures |r| == |ds| && forall i :: 0 <= i < |ds| ==> r[i] == SortGrants(ds[i])
  {
    seq(|ds|, i requires 0 <= i < |ds| => SortGrants(ds[i]))
  }

  /** Deposits by (depositor, name), each deposit's grants by id. */
  function SortBase(base: seq<BaseDeposit>): seq<BaseDeposit> {
    SortEach(Sort(SlotLe, base))
  }

  function Stream(j: Json, sorted: seq<BaseDeposit>): Text {
    Tag(TAG_BASE) + (U64(|sorted|) + PutDeposits(j, sorted))
  }

  function Encode(j: Json, base: seq<BaseDeposit>): Text {
    Stream(j, SortBase(base))
  }

  // ----------------------------------------------------------------- decoding

  function DecodeRecord(j: Json, raw: Text): Result<VaultOp, Error> {
    var op := j.read(raw);
    if op.None? then Err(NotARecord) else if j.write(op.value) != raw then Err(NotCanonical) else Ok(op.value)
  }

  function ReadGrant(j: Json, s: Text, last: Option<BaseGrant>): Result<(BaseGrant, Text), Error> {
    var p := ReadU64(s);
    if p.None? then Err(Overrun)
    else
      var f := ReadField(p.value.1);
      if f.None? then Err(Overrun)
      else
        match DecodeRecord(j, f.value.0)
        case Err(e) => Err(e)
        case Ok(op) =>
          if !op.GrantOp? then Err(WrongOp)
          else
            var g := BaseGrant(p.value.0, op.grant);
            if !GrantAfter(last, g) then Err(OutOfOrder) else Ok((g, f.value.1))
  }

  function DecodeGrants(j: Json, s: Text, n: nat, last: Option<BaseGrant>): Result<(seq<BaseGrant>, Text), Error>
    decreases n
  {
    if n == 0 then Ok(([], s))
    else
      match ReadGrant(j, s, last)
      case Err(e) => Err(e)
      case Ok((g, rest)) =>
        match DecodeGrants(j, rest, n - 1, Some(g))
        case Err(e) => Err(e)
        case Ok((gs, rest')) => Ok(([g] + gs, rest'))
  }

  function ReadDeposit(j: Json, s: Text, last: Option<BaseDeposit>): Result<(BaseDeposit, Text), Error> {
    var f := ReadField(s);
    if f.None? then Err(Overrun)
    else
      match DecodeRecord(j, f.value.0)
      case Err(e) => Err(e)
      case Ok(op) =>
        if !op.DepositOp? then Err(WrongOp)
        else if !After(last, BaseDeposit(op.deposit, [])) then Err(OutOfOrder)
        else
          var n := ReadU64(f.value.1);
          if n.None? then Err(Overrun)
          else
            match DecodeGrants(j, n.value.1, n.value.0, None)
            case Err(e) => Err(e)
            case Ok((gs, rest)) => Ok((BaseDeposit(op.deposit, gs), rest))
  }

  function DecodeDeposits(j: Json, s: Text, n: nat, last: Option<BaseDeposit>): Result<(seq<BaseDeposit>, Text), Error>
    decreases n
  {
    if n == 0 then Ok(([], s))
    else
      match ReadDeposit(j, s, last)
      case Err(e) => Err(e)
      case Ok((d, rest)) =>
        match DecodeDeposits(j, rest, n - 1, Some(d))
        case Err(e) => Err(e)
        case Ok((ds, rest')) => Ok(([d] + ds, rest'))
  }

  function Decode(j: Json, bytes: Text): (r: Result<seq<BaseDeposit>, Error>) {
    var tag := Tag(TAG_BASE);
    if !(tag <= bytes) then Err(WrongTag)
    else
      var n := ReadU64(bytes[|tag|..]);
      if n.None? then Err(Overrun)
      else
        match DecodeDeposits(j, n.value.1, n.value.0, None)
        case Err(e) => Err(e)
        case Ok((ds, rest)) => if rest != [] then Err(Trailing) else Ok(ds)
  }

  // ------------------------------------------- reading what was written, exactly

  predicate OkGrants(j: Json, gs: seq<BaseGrant>) {
    |gs| <= U64_MAX && forall i :: 0 <= i < |gs| ==> gs[i].proposalId <= U64_MAX && Fits(j.write(GrantOp(gs[i].grant)))
  }

  predicate OkDeposit(j: Json, d: BaseDeposit) {
    Fits(j.write(DepositOp(d.deposit))) && OkGrants(j, d.grants)
  }

  predicate OkDeposits(j: Json, ds: seq<BaseDeposit>) {
    |ds| <= U64_MAX && forall i :: 0 <= i < |ds| ==> OkDeposit(j, ds[i])
  }

  lemma GrantReads(j: Json, g: BaseGrant, x: Text, last: Option<BaseGrant>)
    requires JsonOk(j) && g.proposalId <= U64_MAX && Fits(j.write(GrantOp(g.grant)))
    ensures ReadGrant(j, PutGrant(j, g) + x, last) == if GrantAfter(last, g) then Ok((g, x)) else Err(OutOfOrder)
  {
    hide Put, U64, GrantAfter, ReadU64, ReadField;
    var raw := j.write(GrantOp(g.grant));
    assert PutGrant(j, g) + x == U64(g.proposalId) + (Put(raw) + x);
    U64Reads(g.proposalId, Put(raw) + x);
    FieldReads(raw, x);
  }

  /** Decoding written grants succeeds exactly when they strictly ascend. */
  lemma {:induction false} GrantsRead(j: Json, gs: seq<BaseGrant>, x: Text, last: Option<BaseGrant>)
    requires JsonOk(j) && OkGrants(j, gs)
    ensures var r := DecodeGrants(j, PutGrants(j, gs) + x, |gs|, last);
            if GrantsAscend(last, gs) then r == Ok((gs, x)) else r == Err(OutOfOrder)
  {
    hide JsonOk, PutGrant, ReadGrant, GrantAfter;
    if gs == [] {
      assert PutGrants(j, gs) + x == x;
    } else {
      assert PutGrants(j, gs) + x == PutGrant(j, gs[0]) + (PutGrants(j, gs[1..]) + x);
      GrantReads(j, gs[0], PutGrants(j, gs[1..]) + x, last);
      GrantsRead(j, gs[1..], x, Some(gs[0]));
      assert gs == [gs[0]] + gs[1..];
    }
  }

  lemma DepositReads(j: Json, d: BaseDeposit, x: Text, last: Option<BaseDeposit>)
    requires JsonOk(j) && OkDeposit(j, d)
    ensures ReadDeposit(j, PutDeposit(j, d) + x, last)
         == if After(last, d) && GrantsAscend(None, d.grants) then Ok((d, x)) else Err(OutOfOrder)
  {
    hide Put, U64, SlotLe, ReadU64, ReadField, PutGrants, DecodeGrants, GrantsAscend;
    var raw := j.write(DepositOp(d.deposit));
    var r2 := PutGrants(j, d.grants) + x;
    assert PutDeposit(j, d) + x == Put(raw) + (U64(|d.grants|) + r2);
    FieldReads(raw, U64(|d.grants|) + r2);
    U64Reads(|d.grants|, r2);
    GrantsRead(j, d.grants, x, None);
    AfterIgnoresGrants(last, d);
  }

  lemma AfterIgnoresGrants(last: Option<BaseDeposit>, d: BaseDeposit)
    ensures After(last, BaseDeposit(d.deposit, [])) == After(last, d)
  {
  }

  /** Decoding written deposits succeeds exactly when slots and grant ids strictly ascend. */
  lemma {:induction false} DepositsRead(j: Json, ds: seq<BaseDeposit>, x: Text, last: Option<BaseDeposit>)
    requires JsonOk(j) && OkDeposits(j, ds)
    ensures var r := DecodeDeposits(j, PutDeposits(j, ds) + x, |ds|, last);
            if Ascend(last, ds) then r == Ok((ds, x)) else r == Err(OutOfOrder)
  {
    hide JsonOk, PutDeposit, ReadDeposit, After, GrantsAscend;
    if ds == [] {
      assert PutDeposits(j, ds) + x == x;
    } else {
      assert PutDeposits(j, ds) + x == PutDeposit(j, ds[0]) + (PutDeposits(j, ds[1..]) + x);
      DepositReads(j, ds[0], PutDeposits(j, ds[1..]) + x, last);
      DepositsRead(j, ds[1..], x, Some(ds[0]));
      assert ds == [ds[0]] + ds[1..];
    }
  }

  lemma StreamReads(j: Json, ds: seq<BaseDeposit>, x: Text)
    requires JsonOk(j) && OkDeposits(j, ds)
    ensures Decode(j, Stream(j, ds) + x)
         == if !Ascend(None, ds) then Err(OutOfOrder) else if x != [] then Err(Trailing) else Ok(ds)
  {
    hide JsonOk, U64, ReadU64, PutDeposits, DecodeDeposits, Ascend;
    var bytes, tag := Stream(j, ds) + x, Tag(TAG_BASE);
    var rest := PutDeposits(j, ds) + x;
    assert bytes == tag + (U64(|ds|) + rest);
    assert bytes[|tag|..] == U64(|ds|) + rest;
    U64Reads(|ds|, rest);
    DepositsRead(j, ds, x, None);
  }

  // -------------------------------------------------- writing back what was read

  lemma RecordWritesBack(j: Json, raw: Text)
    ensures DecodeRecord(j, raw).Ok? ==> j.write(DecodeRecord(j, raw).value) == raw
  {
  }

  lemma GrantWritesBack(j: Json, s: Text, last: Option<BaseGrant>)
    ensures match ReadGrant(j, s, last)
            case Err(_) => true
            case Ok((g, rest)) => s == PutGrant(j, g) + rest && GrantAfter(last, g) && g.proposalId <= U64_MAX && Fits(j.write(GrantOp(g.grant)))
  {
    hide Put, U64, GrantAfter, ReadU64, ReadField, DecodeRecord;
    ReadsU64(s);
    if ReadU64(s).Some? {
      var (pid, s1) := ReadU64(s).value;
      ReadsField(s1);
      if ReadField(s1).Some? {
        var (raw, s2) := ReadField(s1).value;
        RecordWritesBack(j, raw);
        assert U64(pid) + (Put(raw) + s2) == U64(pid) + Put(raw) + s2;
      }
    }
  }

  lemma {:induction false} GrantsWriteBack(j: Json, s: Text, n: nat, last: Option<BaseGrant>)
    ensures match DecodeGrants(j, s, n, last)
            case Err(_) => true
            case Ok((gs, rest)) => |gs| == n && s == PutGrants(j, gs) + rest && GrantsAscend(last, gs) && (n <= U64_MAX ==> OkGrants(j, gs))
    decreases n
  {
    hide PutGrant, ReadGrant, GrantAfter;
    if n > 0 {
      GrantWritesBack(j, s, last);
      match ReadGrant(j, s, last)
      case Err(_) =>
      case Ok((g, rest)) =>
        GrantsWriteBack(j, rest, n - 1, Some(g));
        match DecodeGrants(j, rest, n - 1, Some(g)) {
          case Err(_) =>
          case Ok((gs, rest')) =>
            var all := [g] + gs;
            assert all[1..] == gs;
            assert PutGrant(j, g) + (PutGrants(j, gs) + rest') == PutGrants(j, all) + rest';
        }
    }
  }

  lemma DepositWritesBack(j: Json, s: Text, last: Option<BaseDeposit>)
    ensures match ReadDeposit(j, s, last)
            case Err(_) => true
            case Ok((d, rest)) => s == PutDeposit(j, d) + rest && After(last, d) && GrantsAscend(None, d.grants) && OkDeposit(j, d)
  {
    hide Put, U64, SlotLe, ReadU64, ReadField, DecodeRecord, PutGrants, DecodeGrants, GrantsAscend, OkGrants;
    ReadsField(s);
    if ReadField(s).Some? {
      var (raw, s1) := ReadField(s).value;
      RecordWritesBack(j, raw);
      ReadsU64(s1);
      if ReadU64(s1).Some? {
        var (n, s2) := ReadU64(s1).value;
        GrantsWriteBack(j, s2, n, None);
        match DecodeGrants(j, s2, n, None)
        case Err(_) =>
        case Ok((gs, rest)) =>
          if DecodeRecord(j, raw).Ok? && DecodeRecord(j, raw).value.DepositOp? {
            AfterIgnoresGrants(last, BaseDeposit(DecodeRecord(j, raw).value.deposit, gs));
          }
          assert Put(raw) + (U64(n) + (PutGrants(j, gs) + rest)) == Put(raw) + (U64(n) + PutGrants(j, gs)) + rest;
      }
    }
  }

  lemma {:induction false} DepositsWriteBack(j: Json, s: Text, n: nat, last: Option<BaseDeposit>)
    ensures match DecodeDeposits(j, s, n, last)
            case Err(_) => true
            case Ok((ds, rest)) => |ds| == n && s == PutDeposits(j, ds) + rest && Ascend(last, ds) && (n <= U64_MAX ==> OkDeposits(j, ds))
    decreases n
  {
    hide PutDeposit, ReadDeposit, After, OkDeposit, GrantsAscend;
    if n > 0 {
      DepositWritesBack(j, s, last);
      match ReadDeposit(j, s, last)
      case Err(_) =>
      case Ok((d, rest)) =>
        DepositsWriteBack(j, rest, n - 1, Some(d));
        match DecodeDeposits(j, rest, n - 1, Some(d)) {
          case Err(_) =>
          case Ok((ds, rest')) =>
            var all := [d] + ds;
            assert all[1..] == ds;
            assert PutDeposit(j, d) + (PutDeposits(j, ds) + rest') == PutDeposits(j, all) + rest';
        }
    }
  }

  lemma StreamWritesBack(j: Json, bytes: Text)
    ensures match Decode(j, bytes)
            case Err(_) => true
            case Ok(ds) => bytes == Stream(j, ds) && Ascend(None, ds) && OkDeposits(j, ds)
  {
    hide U64, ReadU64, PutDeposits, DecodeDeposits, Ascend, OkDeposits;
    var tag := Tag(TAG_BASE);
    if tag <= bytes {
      var s := bytes[|tag|..];
      assert bytes == tag + s;
      ReadsU64(s);
      if ReadU64(s).Some? {
        var (n, rest) := ReadU64(s).value;
        DepositsWriteBack(j, rest, n, None);
        match DecodeDeposits(j, rest, n, None)
        case Err(_) =>
        case Ok((ds, rest')) =>
          if rest' == [] { assert PutDeposits(j, ds) + [] == PutDeposits(j, ds); }
      }
    }
  }

  // ---------------------------------------------------------- ascending = distinct

  ghost predicate SlotsDistinct(ds: seq<BaseDeposit>) {
    forall i, j :: 0 <= i < j < |ds| ==> !SameSlot(ds[i], ds[j])
  }

  ghost predicate GrantsDistinct(gs: seq<BaseGrant>) {
    forall i, j :: 0 <= i < j < |gs| ==> gs[i].grant.grantId != gs[j].grant.grantId
  }

  /** No slot twice, no grant id twice under one deposit. */
  ghost predicate NoDuplicates(base: seq<BaseDeposit>) {
    SlotsDistinct(base) && forall i :: 0 <= i < |base| ==> GrantsDistinct(base[i].grants)
  }

  lemma {:induction false} GrantsAscendIff(last: Option<BaseGrant>, gs: seq<BaseGrant>)
    ensures GrantsAscend(last, gs) <==>
            && Sorted(GrantLe, gs) && GrantsDistinct(gs)
            && (last.Some? && gs != [] ==> GrantAfter(last, gs[0]))
    decreases |gs|
  {
    hide GrantLe;
    if gs != [] {
      GrantsAscendIff(Some(gs[0]), gs[1..]);
      if GrantsAscend(last, gs) {
        forall j | 1 <= j < |gs|
          ensures GrantLe(gs[0], gs[j]) && gs[0].grant.grantId != gs[j].grant.grantId
        {
          GrantChain(gs, j);
        }
      }
      if Sorted(GrantLe, gs) && GrantsDistinct(gs) {
        assert Sorted(GrantLe, gs[1..]) && GrantsDistinct(gs[1..]);
      }
    }
  }

  lemma GrantChain(gs: seq<BaseGrant>, j: nat)
    requires 1 <= j < |gs| && GrantAfter(Some(gs[0]), gs[1]) && Sorted(GrantLe, gs[1..])
    ensures GrantLe(gs[0], gs[j]) && gs[0].grant.grantId != gs[j].grant.grantId
  {
    if j > 1 {
      assert GrantLe(gs[1..][0], gs[1..][j - 1]);
      LexTransitive(gs[0].grant.grantId, gs[1].grant.grantId, gs[j].grant.grantId);
      if gs[0].grant.grantId == gs[j].grant.grantId {
        LexAntisymmetric(gs[0].grant.grantId, gs[1].grant.grantId);
      }
    }
  }

  ghost predicate EachAscends(ds: seq<BaseDeposit>) {
    forall i :: 0 <= i < |ds| ==> GrantsAscend(None, ds[i].grants)
  }

  lemma SlotChain(ds: seq<BaseDeposit>, j: nat)
    requires 1 <= j < |ds| && After(Some(ds[0]), ds[1]) && Sorted(SlotLe, ds[1..])
    ensures SlotLe(ds[0], ds[j]) && !SameSlot(ds[0], ds[j])
  {
    hide SlotLe;
    if j > 1 {
      assert SlotLe(ds[1..][0], ds[1..][j - 1]);
      SlotTransitive(ds[0], ds[1], ds[j]);
      if SameSlot(ds[0], ds[j]) {
        assert SlotLe(ds[1], ds[0]) by { SlotCongruent(ds[1], ds[j], ds[0]); }
        SlotAntisymmetric(ds[0], ds[1]);
      }
    }
  }

  lemma SlotCongruent(x: BaseDeposit, y: BaseDeposit, z: BaseDeposit)
    requires SlotLe(x, y) && SameSlot(y, z)
    ensures SlotLe(x, z)
  {
  }

  lemma {:induction false} AscendIff(last: Option<BaseDeposit>, ds: seq<BaseDeposit>)
    ensures Ascend(last, ds) <==>
            && Sorted(SlotLe, ds) && SlotsDistinct(ds) && EachAscends(ds)
            && (last.Some? && ds != [] ==> After(last, ds[0]))
    decreases |ds|
  {
    hide SlotLe, SameSlot, GrantsAscend;
    if ds != [] {
      AscendIff(Some(ds[0]), ds[1..]);
      if Ascend(last, ds) {
        forall j | 1 <= j < |ds|
          ensures SlotLe(ds[0], ds[j]) && !SameSlot(ds[0], ds[j])
        {
          SlotChain(ds, j);
        }
        forall i | 0 <= i < |ds|
          ensures GrantsAscend(None, ds[i].grants)
        {
          if i > 0 { assert ds[i] == ds[1..][i - 1]; }
        }
      }
      if Sorted(SlotLe, ds) && SlotsDistinct(ds) && EachAscends(ds) {
        assert Sorted(SlotLe, ds[1..]) && SlotsDistinct(ds[1..]) && EachAscends(ds[1..]);
      }
    }
  }

  // ---------------------------------------------------------------- the bijection

  lemma GrantsDistinctBySort(a: seq<BaseGrant>, b: seq<BaseGrant>)
    requires multiset(a) == multiset(b) && GrantsDistinct(b)
    ensures GrantsDistinct(a)
  {
    MultisetMembers(a, b);
    assert Unrepeated(b);
    UnrepeatedBySort(a, b);
    forall i, j | 0 <= i < j < |a|
      ensures a[i].grant.grantId != a[j].grant.grantId
    {
      assert a[i] in b && a[j] in b;
    }
  }

  lemma SlotsDistinctBySort(a: seq<BaseDeposit>, b: seq<BaseDeposit>)
    requires multiset(a) == multiset(b) && SlotsDistinct(b)
    ensures SlotsDistinct(a)
  {
    hide SameSlot;
    MultisetMembers(a, b);
    SlotReflexive();
    assert Unrepeated(b);
    UnrepeatedBySort(a, b);
    forall i, j | 0 <= i < j < |a|
      ensures !SameSlot(a[i], a[j])
    {
      assert a[i] in b && a[j] in b;
      var k :| 0 <= k < |b| && b[k] == a[i];
      var l :| 0 <= l < |b| && b[l] == a[j];
      assert k != l;
    }
  }

  lemma SlotReflexive()
    ensures forall x :: SameSlot(x, x)
    ensures forall x, y :: SameSlot(x, y) <==> SameSlot(y, x)
  {
  }

  /** Sorting grants within deposits changes neither the order nor the meeting of slots. */
  lemma SortEachKeepsSlots(mid: seq<BaseDeposit>)
    ensures Sorted(SlotLe, mid) ==> Sorted(SlotLe, SortEach(mid))
    ensures SlotsDistinct(SortEach(mid)) <==> SlotsDistinct(mid)
  {
    hide SlotLe, SameSlot, SortGrants;
    var out := SortEach(mid);
    forall i, j | 0 <= i < j < |mid|
      ensures SlotLe(out[i], out[j]) == SlotLe(mid[i], mid[j]) && SameSlot(out[i], out[j]) == SameSlot(mid[i], mid[j])
    {
      SlotsIgnoreGrants(mid[i], mid[j]);
    }
    assert forall i :: 0 <= i < |mid| ==> out[i] == SortGrants(mid[i]);
  }

  /** Sorted grants ascend everywhere exactly if no deposit repeats one. */
  lemma SortEachAscends(mid: seq<BaseDeposit>, base: seq<BaseDeposit>)
    requires multiset(mid) == multiset(base)
    ensures EachAscends(SortEach(mid)) <==> forall i :: 0 <= i < |base| ==> GrantsDistinct(base[i].grants)
  {
    hide GrantsAscend, GrantsDistinct, SortGrants;
    var out := SortEach(mid);
    MultisetMembers(mid, base);
    forall i | 0 <= i < |mid|
      ensures GrantsAscend(None, out[i].grants) <==> GrantsDistinct(mid[i].grants)
    {
      GrantsSortAscends(mid[i]);
    }
    if EachAscends(out) {
      forall i | 0 <= i < |base|
        ensures GrantsDistinct(base[i].grants)
      {
        assert base[i] in mid;
        var k :| 0 <= k < |mid| && mid[k] == base[i];
      }
    }
    if forall i :: 0 <= i < |base| ==> GrantsDistinct(base[i].grants) {
      forall i | 0 <= i < |out|
        ensures GrantsAscend(None, out[i].grants)
      {
        assert mid[i] in base;
      }
    }
  }

  /** Sorting makes a base ascend exactly when it has no duplicates. */
  lemma SortedAscends(base: seq<BaseDeposit>)
    ensures Ascend(None, SortBase(base)) <==> NoDuplicates(base)
  {
    hide SlotLe, Sort, Sorted, SortEach, SlotsDistinct, EachAscends, GrantsDistinct, Ascend;
    var mid := Sort(SlotLe, base);
    AscendIff(None, SortEach(mid));
    SlotOrder();
    SortSorted(SlotLe, base);
    SortEachKeepsSlots(mid);
    if SlotsDistinct(base) { SlotsDistinctBySort(mid, base); }
    if SlotsDistinct(mid) { SlotsDistinctBySort(base, mid); }
    SortEachAscends(mid, base);
  }

  lemma SlotsIgnoreGrants(x: BaseDeposit, y: BaseDeposit)
    ensures SlotLe(SortGrants(x), SortGrants(y)) == SlotLe(x, y)
    ensures SameSlot(SortGrants(x), SortGrants(y)) == SameSlot(x, y)
  {
    hide LexLe;
  }

  lemma GrantsSortAscends(d: BaseDeposit)
    ensures GrantsAscend(None, SortGrants(d).grants) <==> GrantsDistinct(d.grants)
  {
    hide Sort, GrantLe;
    var gs := Sort(GrantLe, d.grants);
    GrantsAscendIff(None, gs);
    GrantOrder();
    SortSorted(GrantLe, d.grants);
    if GrantsDistinct(d.grants) { GrantsDistinctBySort(gs, d.grants); }
    if GrantsDistinct(gs) { GrantsDistinctBySort(d.grants, gs); }
  }

  /** Ascending bases are already in encoding order. */
  lemma AscendingIsSorted(ds: seq<BaseDeposit>)
    requires Ascend(None, ds)
    ensures SortBase(ds) == ds && NoDuplicates(ds)
  {
    hide SlotLe, GrantLe, Sort, SameSlot, GrantsDistinct;
    AscendIff(None, ds);
    SortOfSorted(SlotLe, ds);
    forall i | 0 <= i < |ds|
      ensures SortGrants(ds[i]) == ds[i] && GrantsDistinct(ds[i].grants)
    {
      GrantsAscendIff(None, ds[i].grants);
      SortOfSorted(GrantLe, ds[i].grants);
    }
    assert SortEach(ds) == ds;
  }

  lemma SortedOk(j: Json, base: seq<BaseDeposit>)
    requires OkDeposits(j, base)
    ensures OkDeposits(j, SortBase(base))
  {
    hide Sort;
    var mid := Sort(SlotLe, base);
    MultisetMembers(mid, base);
    forall i | 0 <= i < |mid|
      ensures OkDeposit(j, SortGrants(mid[i]))
    {
      assert mid[i] in base;
      var gs := Sort(GrantLe, mid[i].grants);
      MultisetMembers(gs, mid[i].grants);
      forall k | 0 <= k < |gs|
        ensures gs[k].proposalId <= U64_MAX && Fits(j.write(GrantOp(gs[k].grant)))
      {
        assert gs[k] in mid[i].grants;
      }
    }
  }

  /** Decoding an encoding gives the sorted base; duplicates are refused, and so is anything after it. */
  lemma DecodeOfEncode(j: Json, base: seq<BaseDeposit>, x: Text)
    requires JsonOk(j) && OkDeposits(j, base)
    ensures Decode(j, Encode(j, base) + x)
         == if !NoDuplicates(base) then Err(OutOfOrder) else if x != [] then Err(Trailing) else Ok(SortBase(base))
  {
    hide JsonOk, OkDeposits, Decode, Stream, Ascend, SortBase, NoDuplicates;
    SortedOk(j, base);
    SortedAscends(base);
    StreamReads(j, SortBase(base), x);
  }

  /** Deposits by depositor and name, grants by id, each later than the one before. */
  ghost predicate InBaseOrder(base: seq<BaseDeposit>) {
    && (forall i :: 0 < i < |base| ==> SlotPrecedes(base[i - 1].deposit, base[i].deposit))
    && (forall i :: 0 <= i < |base| ==> InGrantOrder(base[i].grants))
  }

  ghost predicate SlotPrecedes(a: Deposit, b: Deposit) {
    Precedes(a.depositor, b.depositor) || (a.depositor == b.depositor && Precedes(a.name, b.name))
  }

  ghost predicate InGrantOrder(gs: seq<BaseGrant>) {
    forall i :: 0 < i < |gs| ==> Precedes(gs[i - 1].grant.grantId, gs[i].grant.grantId)
  }

  lemma {:induction false} GrantsInOrder(last: Option<BaseGrant>, gs: seq<BaseGrant>)
    requires GrantsAscend(last, gs)
    ensures InGrantOrder(if last.Some? then [last.value] + gs else gs)
    decreases |gs|
  {
    hide LexLe, Precedes;
    if gs != [] {
      GrantsInOrder(Some(gs[0]), gs[1..]);
      assert [gs[0]] + gs[1..] == gs;
      if last.Some? {
        LexLeIs(last.value.grant.grantId, gs[0].grant.grantId);
        var all := [last.value] + gs;
        assert forall i :: 0 < i < |all| ==> all[i] == gs[i - 1];
        forall i | 0 < i < |all|
          ensures Precedes(all[i - 1].grant.grantId, all[i].grant.grantId)
        {
          if i > 1 { assert Precedes(gs[i - 2].grant.grantId, gs[i - 1].grant.grantId); }
        }
      }
    }
  }

  lemma AfterIs(a: BaseDeposit, b: BaseDeposit)
    requires After(Some(a), b)
    ensures SlotPrecedes(a.deposit, b.deposit)
  {
    hide LexLe, Precedes;
    LexLeIs(a.deposit.depositor, b.deposit.depositor);
    LexLeIs(a.deposit.name, b.deposit.name);
  }

  lemma {:induction false} AscendInOrder(last: Option<BaseDeposit>, ds: seq<BaseDeposit>)
    requires Ascend(last, ds)
    ensures InBaseOrder(ds)
    ensures last.Some? && ds != [] ==> SlotPrecedes(last.value.deposit, ds[0].deposit)
    decreases |ds|
  {
    hide SlotPrecedes, InGrantOrder;
    if ds != [] {
      GrantsInOrder(None, ds[0].grants);
      AscendInOrder(Some(ds[0]), ds[1..]);
      if last.Some? { AfterIs(last.value, ds[0]); }
      forall i | 0 < i < |ds|
        ensures SlotPrecedes(ds[i - 1].deposit, ds[i].deposit)
      {
        if i > 1 { assert SlotPrecedes(ds[1..][i - 2].deposit, ds[1..][i - 1].deposit); }
      }
      forall i | 0 <= i < |ds|
        ensures InGrantOrder(ds[i].grants)
      {
        if i > 0 { assert ds[i] == ds[1..][i - 1]; }
      }
    }
  }

  /** Bytes that decode are the encoding of what they decode to, and that is in order. */
  lemma EncodeOfDecode(j: Json, bytes: Text)
    ensures match Decode(j, bytes)
            case Err(_) => true
            case Ok(base) => Encode(j, base) == bytes && NoDuplicates(base) && SortBase(base) == base && InBaseOrder(base)
  {
    hide Decode, Stream, Ascend, SortBase, NoDuplicates;
    StreamWritesBack(j, bytes);
    match Decode(j, bytes)
    case Err(_) =>
    case Ok(base) =>
      AscendingIsSorted(base);
      AscendInOrder(None, base);
  }

  /** A truncated encoding does not decode. */
  lemma TruncationIsRefused(j: Json, base: seq<BaseDeposit>, k: nat)
    requires JsonOk(j) && OkDeposits(j, base) && k < |Encode(j, base)|
    ensures Decode(j, Encode(j, base)[..k]).Err?
  {
    hide JsonOk, OkDeposits, Decode, SortBase, NoDuplicates, Encode;
    var bytes := Encode(j, base);
    var cut := bytes[..k];
    StreamWritesBack(j, cut);
    if Decode(j, cut).Ok? {
      var ds := Decode(j, cut).value;
      assert Stream(j, ds) + bytes[k..] == bytes;
      StreamReads(j, ds, bytes[k..]);
      assert bytes + [] == bytes;
      DecodeOfEncode(j, base, []);
    }
  }

  // ------------------------------------------------------------- the loops themselves

  method NextRecord(j: Json, r: Reader) returns (op: Result<VaultOp, Error>)
    requires r.Valid()
    modifies r
    ensures r.Valid()
    ensures ReadField(old(r.Left())).None? ==> op == Err(Overrun)
    ensures ReadField(old(r.Left())).Some? ==>
              ReadField(old(r.Left())).value.1 == r.Left() && op == DecodeRecord(j, ReadField(old(r.Left())).value.0)
  {
    var raw := r.NextField();
    if raw.None? { return Err(Overrun); }
    op := DecodeRecord(j, raw.value);
  }

  method NextGrants(j: Json, r: Reader, n: nat) returns (res: Result<seq<BaseGrant>, Error>)
    requires r.Valid()
    modifies r
    ensures r.Valid()
    ensures match DecodeGrants(j, old(r.Left()), n, None)
            case Err(e) => res == Err(e)
            case Ok((gs, rest)) => res == Ok(gs) && r.Left() == rest
  {
    hide DecodeRecord, GrantAfter, ReadU64, ReadField;
    var gs: seq<BaseGrant>, last: Option<BaseGrant> := [], None;
    ghost var whole := DecodeGrants(j, r.Left(), n, None);
    assert whole.Ok? ==> [] + whole.value.0 == whole.value.0;
    for i := 0 to n
      invariant r.Valid()
      invariant Prepend(gs, DecodeGrants(j, r.Left(), n - i, last)) == whole
    {
      var pid := r.NextU64();
      if pid.None? { return Err(Overrun); }
      var op := NextRecord(j, r);
      if op.Err? { return Err(op.error); }
      if !op.value.GrantOp? { return Err(WrongOp); }
      var g := BaseGrant(pid.value, op.value.grant);
      if !GrantAfter(last, g) { return Err(OutOfOrder); }
      ghost var more := DecodeGrants(j, r.Left(), n - i - 1, Some(g));
      assert more.Ok? ==> gs + ([g] + more.value.0) == gs + [g] + more.value.0;
      gs, last := gs + [g], Some(g);
    }
    assert gs + [] == gs;
    return Ok(gs);
  }

  method NextDeposit(j: Json, r: Reader, last: Option<BaseDeposit>) returns (res: Result<BaseDeposit, Error>)
    requires r.Valid()
    modifies r
    ensures r.Valid()
    ensures match ReadDeposit(j, old(r.Left()), last)
            case Err(e) => res == Err(e)
            case Ok((d, rest)) => res == Ok(d) && r.Left() == rest
  {
    hide DecodeRecord, After, ReadU64, ReadField, DecodeGrants;
    var op := NextRecord(j, r);
    if op.Err? { return Err(op.error); }
    if !op.value.DepositOp? { return Err(WrongOp); }
    if !After(last, BaseDeposit(op.value.deposit, [])) { return Err(OutOfOrder); }
    var n := r.NextU64();
    if n.None? { return Err(Overrun); }
    var gs := NextGrants(j, r, n.value);
    if gs.Err? { return Err(gs.error); }
    return Ok(BaseDeposit(op.value.deposit, gs.value));
  }

  /** The loop over the deposits, each compared with the last. */
  method NextDeposits(j: Json, r: Reader, n: nat) returns (res: Result<seq<BaseDeposit>, Error>)
    requires r.Valid()
    modifies r
    ensures r.Valid()
    ensures var whole := DecodeDeposits(j, old(r.Left()), n, None);
            if whole.Err? then res == Err(whole.error) else res == Ok(whole.value.0) && r.Left() == whole.value.1
  {
    hide ReadDeposit, Prepend, DecodeDeposits;
    var ds: seq<BaseDeposit>, last: Option<BaseDeposit> := [], None;
    ghost var whole := DecodeDeposits(j, r.Left(), n, None);
    PrependNone(whole);
    for i := 0 to n
      invariant r.Valid()
      invariant Prepend(ds, DecodeDeposits(j, r.Left(), n - i, last)) == whole
    {
      ghost var left := r.Left();
      var d := NextDeposit(j, r, last);
      PrependDeposit(j, ds, left, n - i, last);
      if d.Err? { return Err(d.error); }
      ds, last := ds + [d.value], Some(d.value);
    }
    PrependDone(j, ds, r.Left(), last);
    return Ok(ds);
  }

  lemma PrependDone(j: Json, ds: seq<BaseDeposit>, s: Text, last: Option<BaseDeposit>)
    ensures Prepend(ds, DecodeDeposits(j, s, 0, last)) == Ok((ds, s))
  {
    assert ds + [] == ds;
  }

  lemma PrependDeposit(j: Json, ds: seq<BaseDeposit>, s: Text, n: nat, last: Option<BaseDeposit>)
    requires n > 0
    ensures var d := ReadDeposit(j, s, last);
            Prepend(ds, DecodeDeposits(j, s, n, last)) ==
            if d.Err? then Err(d.error) else Prepend(ds + [d.value.0], DecodeDeposits(j, d.value.1, n - 1, Some(d.value.0)))
  {
    hide ReadDeposit;
    var d := ReadDeposit(j, s, last);
    if d.Ok? {
      var more := DecodeDeposits(j, d.value.1, n - 1, Some(d.value.0));
      assert more.Ok? ==> ds + ([d.value.0] + more.value.0) == ds + [d.value.0] + more.value.0;
    }
  }

  /** The decoder with its cursor and loops. */
  method RunDecode(j: Json, bytes: Text) returns (res: Result<seq<BaseDeposit>, Error>)
    ensures res == Decode(j, bytes)
  {
    hide ReadU64, DecodeDeposits, Tag;
    var tag := Tag(TAG_BASE);
    if !(tag <= bytes) { return Err(WrongTag); }
    var r := new Reader(bytes[|tag|..]);
    assert r.Left() == bytes[|tag|..];
    var n := r.NextU64();
    if n.None? { return Err(Overrun); }
    res := NextDeposits(j, r, n.value);
    if res.Ok? && r.at != |r.rest| { return Err(Trailing); }
  }
}
