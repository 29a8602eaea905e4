/**
 Which backup copies to delete so that the bucket fits its byte limit: the
 shortest run of the oldest candidates that suffices, never a workspace's
 newest copy, the copy just uploaded, or a pinned older one.
 */
module Quota {
  import opened Prelude
  import opened Bytes
  import opened Sorting

  type WorkspaceId = Text

  datatype QuotaObject = QuotaObject(key: Text, id: WorkspaceId, ts: nat, size: nat)

  type Pins = map<WorkspaceId, nat>

  function SaturatingAdd(a: nat, b: nat): nat {
    if a + b <= U64_MAX then a + b else U64_MAX
  }

  function SaturatingSub(a: nat, b: nat): nat {
    if b <= a then a - b else 0
  }

  function Used(objects: seq<QuotaObject>): nat {
    if objects == [] then 0 else SaturatingAdd(Used(objects[..|objects| - 1]), objects[|objects| - 1].size)
  }

  /** Oldest first; the key breaks a tie. */
  predicate ByAge(a: QuotaObject, b: QuotaObject) {
    a.ts < b.ts || (a.ts == b.ts && LexLe(a.key, b.key))
  }

  /** `a` is no newer than `b`: an earlier stamp, or the same stamp and a key that does not come later. */
  ghost predicate NoNewer(a: QuotaObject, b: QuotaObject) {
    a.ts < b.ts || (a.ts == b.ts && (a.key == b.key || Precedes(a.key, b.key)))
  }

  lemma ByAgeIs(a: QuotaObject, b: QuotaObject)
    ensures ByAge(a, b) <==> NoNewer(a, b)
  {
    LexLeIs(a.key, b.key);
  }

  /** The newest copy of every workspace. */
  function NewestOf(objects: seq<QuotaObject>): map<WorkspaceId, QuotaObject> {
    if objects == [] then map[]
    else
      var o, before := objects[|objects| - 1], NewestOf(objects[..|objects| - 1]);
      if o.id in before && ByAge(o, before[o.id]) then before else before[o.id := o]
  }

  predicate MayGo(newest: map<WorkspaceId, QuotaObject>, just: Text, pins: Pins, o: QuotaObject) {
    && o.key != just
    && (o.id in pins ==> o.ts >= pins[o.id])
    && (o.id in newest ==> newest[o.id].key != o.key)
  }

  function Filtered<T(!new)>(p: T -> bool, s: seq<T>): (r: seq<T>)
    ensures forall x :: x in r <==> x in s && p(x)
    ensures |r| <= |s|
  {
    if s == [] then []
    else
      assert s == s[..|s| - 1] + [s[|s| - 1]];
      Filtered(p, s[..|s| - 1]) + if p(s[|s| - 1]) then [s[|s| - 1]] else []
  }

  function Candidates(objects: seq<QuotaObject>, just: Text, pins: Pins): seq<QuotaObject> {
    var newest := NewestOf(objects);
    Sort(ByAge, Filtered(o => MayGo(newest, just, pins, o), objects))
  }

  /** How many candidates go, from `i` on, and what is left. */
  function Cut(cs: seq<QuotaObject>, limit: nat, i: nat, remaining: nat): (nat, nat)
    requires i <= |cs|
    decreases |cs| - i
  {
    if i == |cs| || remaining <= limit then (i, remaining)
    else Cut(cs, limit, i + 1, SaturatingSub(remaining, cs[i].size))
  }

  function KeysOf(cs: seq<QuotaObject>): (ks: seq<Text>)
    ensures |ks| == |cs| && forall i :: 0 <= i < |cs| ==> ks[i] == cs[i].key
  {
    seq(|cs|, i requires 0 <= i < |cs| => cs[i].key)
  }

  function Quota(objects: seq<QuotaObject>, limit: nat, just: Text, pins: Pins): (seq<Text>, nat) {
    var used := Used(objects);
    if limit == 0 || used <= limit then ([], used)
    else
      var cs := Candidates(objects, just, pins);
      var (k, left) := Cut(cs, limit, 0, used);
      CutWithin(cs, limit, 0, used);
      (KeysOf(cs[..k]), left)
  }

  lemma {:induction false} CutWithin(cs: seq<QuotaObject>, limit: nat, i: nat, remaining: nat)
    requires i <= |cs|
    ensures i <= Cut(cs, limit, i, remaining).0 <= |cs|
    decreases |cs| - i
  {
    if i < |cs| && remaining > limit { CutWithin(cs, limit, i + 1, SaturatingSub(remaining, cs[i].size)); }
  }

  method RunNewest(objects: seq<QuotaObject>) returns (newest: map<WorkspaceId, QuotaObject>)
    ensures newest == NewestOf(objects)
  {
    hide ByAge;
    newest := map[];
    for i := 0 to |objects|
      invariant newest == NewestOf(objects[..i])
    {
      var o := objects[i];
      assert objects[..i + 1][..i] == objects[..i];
      if o.id in newest {
        if !ByAge(o, newest[o.id]) {
          newest := newest[o.id := o];
        }
      } else {
        newest := newest[o.id := o];
      }
    }
    assert objects[..|objects|] == objects;
  }

  method RunUsed(objects: seq<QuotaObject>) returns (used: nat)
    ensures used == Used(objects)
  {
    used := 0;
    for i := 0 to |objects|
      invariant used == Used(objects[..i])
    {
      assert objects[..i + 1][..i] == objects[..i];
      used := SaturatingAdd(used, objects[i].size);
    }
    assert objects[..|objects|] == objects;
  }

  method RunQuota(objects: seq<QuotaObject>, limit: nat, just: Text, pins: Pins) returns (delete: seq<Text>, remaining: nat)
    ensures (delete, remaining) == Quota(objects, limit, just, pins)
  {
    hide NewestOf, Sort;
    var used := RunUsed(objects);
    if limit == 0 || used <= limit {
      return [], used;
    }
    var newest := RunNewest(objects);
    var cs := Sort(ByAge, Filtered(o => MayGo(newest, just, pins, o), objects));
    delete, remaining := [], used;
    assert cs == Candidates(objects, just, pins);
    CutWithin(cs, limit, 0, used);
    var i := 0;
    while i < |cs| && remaining > limit
      invariant i <= |cs| && delete == KeysOf(cs[..i])
      invariant Cut(cs, limit, i, remaining) == Cut(cs, limit, 0, used)
    {
      remaining := SaturatingSub(remaining, cs[i].size);
      delete := delete + [cs[i].key];
      i := i + 1;
    }
  }

  // -------------------------------------------------------------- conservation

  function Total(s: seq<QuotaObject>): nat {
    if s == [] then 0 else Total(s[..|s| - 1]) + s[|s| - 1].size
  }

  /** The bytes of the objects with these keys. */
  function TotalOf(objects: seq<QuotaObject>, ks: set<Text>): nat {
    if objects == [] then 0
    else
      var o := objects[|objects| - 1];
      TotalOf(objects[..|objects| - 1], ks) + if o.key in ks then o.size else 0
  }

  lemma {:induction false} UsedIsTotal(objects: seq<QuotaObject>)
    ensures Used(objects) == if Total(objects) <= U64_MAX then Total(objects) else U64_MAX
  {
    if objects != [] { UsedIsTotal(objects[..|objects| - 1]); }
  }

  /** The shortest prefix that suffices, or all. */
  lemma {:induction false} CutIsShortest(cs: seq<QuotaObject>, limit: nat, i: nat, remaining: nat, total: nat)
    requires i <= |cs| && remaining + Total(cs[..i]) == total && Total(cs) <= total
    ensures var (k, left) := Cut(cs, limit, i, remaining);
            && i <= k <= |cs| && left + Total(cs[..k]) == total
            && (left <= limit || k == |cs|)
            && forall j :: i <= j < k ==> total - Total(cs[..j]) > limit
    decreases |cs| - i
  {
    if i < |cs| && remaining > limit {
      assert cs[..i + 1][..i] == cs[..i];
      PrefixTotal(cs, i + 1);
      CutIsShortest(cs, limit, i + 1, SaturatingSub(remaining, cs[i].size), total);
    }
  }

  lemma {:induction false} PrefixTotal(cs: seq<QuotaObject>, k: nat)
    requires k <= |cs|
    ensures Total(cs[..k]) <= Total(cs)
  {
    if k < |cs| {
      PrefixTotal(cs[..|cs| - 1], k);
      assert cs[..|cs| - 1][..k] == cs[..k];
    } else {
      assert cs[..k] == cs;
    }
  }

  function KeySet(s: seq<QuotaObject>): set<Text> {
    set k | k in KeysOf(s)
  }

  ghost predicate KeysDiffer(s: seq<QuotaObject>) {
    forall i, j :: 0 <= i < j < |s| ==> s[i].key != s[j].key
  }

  lemma {:induction false} NoKeys(objects: seq<QuotaObject>, ks: set<Text>)
    requires forall i :: 0 <= i < |objects| ==> objects[i].key !in ks
    ensures TotalOf(objects, ks) == 0
  {
    if objects != [] { NoKeys(objects[..|objects| - 1], ks); }
  }

  /** One more key adds the bytes of its one object. */
  lemma {:induction false} OneMoreKey(objects: seq<QuotaObject>, ks: set<Text>, o: QuotaObject)
    requires KeysDiffer(objects) && o.key !in ks
    ensures TotalOf(objects, ks + {o.key}) ==
            TotalOf(objects, ks) + if o in objects then o.size else TotalOf(objects, {o.key})
  {
    if objects != [] {
      var n := |objects| - 1;
      var front, last := objects[..n], objects[n];
      assert objects == front + [last];
      OneMoreKey(front, ks, o);
      if last.key == o.key {
        NoKeys(front, {o.key});
        assert o !in front;
      }
    }
  }

  /** The objects behind different keys weigh what they weigh together. */
  lemma {:induction false} ChosenTotal(objects: seq<QuotaObject>, chosen: seq<QuotaObject>)
    requires KeysDiffer(objects) && KeysDiffer(chosen) && forall i :: 0 <= i < |chosen| ==> chosen[i] in objects
    ensures TotalOf(objects, KeySet(chosen)) == Total(chosen)
  {
    if chosen == [] {
      assert KeySet(chosen) == {};
      NoKeys(objects, {});
    } else {
      var n := |chosen| - 1;
      ChosenTotal(objects, chosen[..n]);
      OneMoreKey(objects, KeySet(chosen[..n]), chosen[n]);
      assert KeysOf(chosen) == KeysOf(chosen[..n]) + [chosen[n].key];
      assert KeySet(chosen) == KeySet(chosen[..n]) + {chosen[n].key};
    }
  }

  // ------------------------------------------------------------- the candidates

  lemma ByAgeIsOrder()
    ensures TotalPreorder(ByAge)
  {
    forall x, y
      ensures ByAge(x, y) || ByAge(y, x)
    {
      LexTotal(x.key, y.key);
    }
    forall x, y, z | ByAge(x, y) && ByAge(y, z)
      ensures ByAge(x, z)
    {
      if x.ts == y.ts == z.ts { LexTransitive(x.key, y.key, z.key); }
    }
  }

  /** The kept copy of a workspace is one of its own and no older than any other. */
  lemma {:induction false} NewestIsNewest(objects: seq<QuotaObject>, id: WorkspaceId)
    ensures id in NewestOf(objects) <==> exists i :: 0 <= i < |objects| && objects[i].id == id
    ensures id in NewestOf(objects) ==>
              var top := NewestOf(objects)[id];
              top in objects && top.id == id && forall i :: 0 <= i < |objects| && objects[i].id == id ==> NoNewer(objects[i], top)
  {
    hide ByAge, NoNewer;
    if objects != [] {
      var n := |objects| - 1;
      var o, before := objects[n], NewestOf(objects[..n]);
      NewestIsNewest(objects[..n], id);
      assert objects == objects[..n] + [o];
      if o.id == id {
        AgeSteps(objects[..n], before, o);
      }
    }
  }

  lemma AgeSteps(front: seq<QuotaObject>, before: map<WorkspaceId, QuotaObject>, o: QuotaObject)
    ensures NoNewer(o, o) && (o.id in before && ByAge(o, before[o.id]) ==> NoNewer(o, before[o.id]))
    ensures o.id in before && !ByAge(o, before[o.id]) ==>
              forall i :: 0 <= i < |front| && NoNewer(front[i], before[o.id]) ==> NoNewer(front[i], o)
  {
    hide ByAge, NoNewer;
    ByAgeIsOrder();
    ByAgeIs(o, o);
    if o.id in before {
      ByAgeIs(o, before[o.id]);
      forall i | 0 <= i < |front| && !ByAge(o, before[o.id]) && NoNewer(front[i], before[o.id])
        ensures NoNewer(front[i], o)
      {
        ByAgeIs(front[i], before[o.id]);
        ByAgeIs(front[i], o);
      }
    }
  }

  lemma {:induction false} FilteredKeysDiffer(p: QuotaObject -> bool, s: seq<QuotaObject>)
    requires KeysDiffer(s)
    ensures KeysDiffer(Filtered(p, s))
  {
    if s != [] {
      var n := |s| - 1;
      FilteredKeysDiffer(p, s[..n]);
      var front := Filtered(p, s[..n]);
      forall i | 0 <= i < |front|
        ensures front[i].key != s[n].key
      {
        assert front[i] in front;
        assert front[i] in s[..n];
      }
    }
  }

  lemma SortedKeysDiffer(s: seq<QuotaObject>, t: seq<QuotaObject>)
    requires KeysDiffer(s) && multiset(s) == multiset(t)
    ensures KeysDiffer(t)
  {
    assert Unrepeated(s);
    UnrepeatedBySort(t, s);
    MultisetMembers(s, t);
    forall i, j | 0 <= i < j < |t|
      ensures t[i].key != t[j].key
    {
      assert t[i] in s && t[j] in s;
      var k :| 0 <= k < |s| && s[k] == t[i];
      var l :| 0 <= l < |s| && s[l] == t[j];
      assert t[i] != t[j];
    }
  }

  /** The candidates are the objects that may go, each once, oldest first. */
  lemma CandidatesAre(objects: seq<QuotaObject>, just: Text, pins: Pins)
    ensures var cs := Candidates(objects, just, pins);
            && Sorted(ByAge, cs)
            && (forall o :: o in cs <==> o in objects && MayGo(NewestOf(objects), just, pins, o))
            && (KeysDiffer(objects) ==> KeysDiffer(cs))
  {
    hide NewestOf, MayGo, ByAge, Filtered, Sort, KeysDiffer;
    var newest := NewestOf(objects);
    var p := o => MayGo(newest, just, pins, o);
    var s := Filtered(p, objects);
    ByAgeIsOrder();
    SortSorted(ByAge, s);
    MultisetMembers(Sort(ByAge, s), s);
    if KeysDiffer(objects) {
      FilteredKeysDiffer(p, objects);
      SortedKeysDiffer(s, Sort(ByAge, s));
    }
  }

  lemma {:induction false} CandidatesWeigh(objects: seq<QuotaObject>, chosen: seq<QuotaObject>)
    requires KeysDiffer(objects) && KeysDiffer(chosen) && forall i :: 0 <= i < |chosen| ==> chosen[i] in objects
    ensures Total(chosen) <= Total(objects)
  {
    ChosenTotal(objects, chosen);
    PartWeighsLess(objects, KeySet(chosen));
  }

  lemma {:induction false} PartWeighsLess(objects: seq<QuotaObject>, ks: set<Text>)
    ensures TotalOf(objects, ks) <= Total(objects)
  {
    if objects != [] { PartWeighsLess(objects[..|objects| - 1], ks); }
  }

  // ------------------------------------------------------------ what the quota does

  /** With different keys and a total within 64 bits, every byte is either left or deleted. */
  lemma QuotaConserves(objects: seq<QuotaObject>, limit: nat, just: Text, pins: Pins)
    requires KeysDiffer(objects) && Total(objects) <= U64_MAX
    ensures var (delete, left) := Quota(objects, limit, just, pins);
            left + TotalOf(objects, set k | k in delete) == Total(objects)
  {
    hide Candidates, Cut, KeysDiffer, Total, TotalOf, Used;
    UsedIsTotal(objects);
    if limit == 0 || Used(objects) <= limit {
      NoKeys(objects, {});
      var none: seq<Text> := [];
      assert (set k | k in none) == {};
    } else {
      var k := Shortest(objects, limit, just, pins);
      var chosen := Candidates(objects, just, pins)[..k];
      assert (set x | x in KeysOf(chosen)) == KeySet(chosen);
      ChosenTotal(objects, chosen);
    }
  }

  /** The deletions are the first `k` candidates, for the least `k` that fits the limit, or all of them. */
  lemma Shortest(objects: seq<QuotaObject>, limit: nat, just: Text, pins: Pins) returns (k: nat)
    requires KeysDiffer(objects) && Total(objects) <= U64_MAX && limit > 0 && Total(objects) > limit
    ensures var (delete, left) := Quota(objects, limit, just, pins);
            var cs := Candidates(objects, just, pins);
            && k <= |cs| && delete == KeysOf(cs[..k])
            && left == Total(objects) - Total(cs[..k])
            && (left <= limit || k == |cs|)
            && (forall j :: 0 <= j < k ==> Total(objects) - Total(cs[..j]) > limit)
            && KeysDiffer(cs[..k]) && (forall i :: 0 <= i < k ==> cs[..k][i] in objects)
  {
    hide Candidates, Cut, Total, Used, MayGo;
    UsedIsTotal(objects);
    CandidatesAre(objects, just, pins);
    var cs := Candidates(objects, just, pins);
    assert forall i :: 0 <= i < |cs| ==> cs[i] in cs;
    CandidatesWeigh(objects, cs);
    NoPrefix(cs);
    CutIsShortest(cs, limit, 0, Used(objects), Total(objects));
    k := Cut(cs, limit, 0, Used(objects)).0;
  }

  lemma NoPrefix(cs: seq<QuotaObject>)
    ensures Total(cs[..0]) == 0
  {
  }

  /** Only candidates are deleted, whatever the sizes. */
  lemma DeletedAreCandidates(objects: seq<QuotaObject>, limit: nat, just: Text, pins: Pins, key: Text) returns (o: QuotaObject)
    requires key in Quota(objects, limit, just, pins).0
    ensures o in objects && o.key == key && MayGo(NewestOf(objects), just, pins, o)
  {
    hide Candidates, Cut, Used, MayGo, NewestOf;
    var cs := Candidates(objects, just, pins);
    CandidatesAre(objects, just, pins);
    var k := Cut(cs, limit, 0, Used(objects)).0;
    CutWithin(cs, limit, 0, Used(objects));
    var i :| 0 <= i < k && cs[..k][i].key == key;
    o := cs[i];
  }

  /** An object that may not go: the newest of its workspace, the one just uploaded, or older than its workspace's pin. */
  ghost predicate Protected(objects: seq<QuotaObject>, just: Text, pins: Pins, o: QuotaObject) {
    || o.key == just
    || (o.id in pins && o.ts < pins[o.id])
    || forall i :: 0 <= i < |objects| && objects[i].id == o.id ==> NoNewer(objects[i], o)
  }

  lemma SameAge(a: QuotaObject, b: QuotaObject)
    requires NoNewer(a, b) && NoNewer(b, a)
    ensures a.key == b.key
  {
    hide NoNewer;
    ByAgeIs(a, b);
    ByAgeIs(b, a);
    LexAntisymmetric(a.key, b.key);
  }

  lemma MayGoIs(objects: seq<QuotaObject>, just: Text, pins: Pins, o: QuotaObject)
    requires KeysDiffer(objects) && o in objects
    ensures MayGo(NewestOf(objects), just, pins, o) <==> !Protected(objects, just, pins, o)
  {
    hide NewestOf, NoNewer;
    NewestIsNewest(objects, o.id);
    var top := NewestOf(objects)[o.id];
    if forall i :: 0 <= i < |objects| && objects[i].id == o.id ==> NoNewer(objects[i], o) {
      SameAge(top, o);
    } else if top.key == o.key {
      OneKeyOneObject(objects, top, o);
    }
  }

  /** No protected object is deleted. */
  lemma ProtectedStays(objects: seq<QuotaObject>, limit: nat, just: Text, pins: Pins, o: QuotaObject)
    requires KeysDiffer(objects) && o in objects && Protected(objects, just, pins, o)
    ensures o.key !in Quota(objects, limit, just, pins).0
  {
    hide Quota, NewestOf, Protected, MayGo;
    if o.key in Quota(objects, limit, just, pins).0 {
      var gone := DeletedAreCandidates(objects, limit, just, pins, o.key);
      OneKeyOneObject(objects, o, gone);
      MayGoIs(objects, just, pins, o);
    }
  }

  /** Nothing is deleted exactly if there is no limit, the total fits it, or everything is protected; all bytes used are then left. */
  lemma NothingGoesIff(objects: seq<QuotaObject>, limit: nat, just: Text, pins: Pins)
    requires KeysDiffer(objects)
    ensures var (delete, left) := Quota(objects, limit, just, pins);
            var used := if Total(objects) <= U64_MAX then Total(objects) else U64_MAX;
            && (delete == [] <==> limit == 0 || used <= limit || forall o :: o in objects ==> Protected(objects, just, pins, o))
            && (delete == [] ==> left == used)
  {
    hide Candidates, Used, Total, MayGo, NewestOf, Protected, KeysDiffer;
    UsedIsTotal(objects);
    var cs := Candidates(objects, just, pins);
    CandidatesAre(objects, just, pins);
    forall o | o in objects
      ensures o in cs <==> !Protected(objects, just, pins, o)
    {
      MayGoIs(objects, just, pins, o);
    }
    if cs != [] && Used(objects) > limit {
      assert cs[0] in cs;
      CutWithin(cs, limit, 1, SaturatingSub(Used(objects), cs[0].size));
    }
  }

  lemma {:induction false} CutStops(cs: seq<QuotaObject>, limit: nat, i: nat, remaining: nat)
    requires i <= |cs|
    ensures Cut(cs, limit, i, remaining).0 < |cs| ==> Cut(cs, limit, i, remaining).1 <= limit
    decreases |cs| - i
  {
    if i < |cs| && remaining > limit { CutStops(cs, limit, i + 1, SaturatingSub(remaining, cs[i].size)); }
  }

  /** An object that could have gone stays only if there is no limit or the rest fits it. */
  lemma StaysIfEnough(objects: seq<QuotaObject>, limit: nat, just: Text, pins: Pins, kept: QuotaObject)
    requires KeysDiffer(objects) && kept in objects && !Protected(objects, just, pins, kept)
    requires kept.key !in Quota(objects, limit, just, pins).0
    ensures limit == 0 || Quota(objects, limit, just, pins).1 <= limit
  {
    hide Candidates, Cut, Used, MayGo, NewestOf, Protected, KeysDiffer;
    if limit > 0 && Used(objects) > limit {
      var cs := Candidates(objects, just, pins);
      CandidatesAre(objects, just, pins);
      MayGoIs(objects, just, pins, kept);
      CutWithin(cs, limit, 0, Used(objects));
      CutStops(cs, limit, 0, Used(objects));
      var j :| 0 <= j < |cs| && cs[j] == kept;
      AfterTheCut(cs, Cut(cs, limit, 0, Used(objects)).0, j);
    }
  }

  lemma AfterTheCut(cs: seq<QuotaObject>, k: nat, j: nat)
    requires k <= |cs| && j < |cs| && cs[j].key !in KeysOf(cs[..k])
    ensures k <= j
  {
    if j < k { BeforeTheCut(cs, k, j); }
  }

  lemma BeforeTheCut(cs: seq<QuotaObject>, k: nat, j: nat)
    requires j < k <= |cs|
    ensures cs[j].key in KeysOf(cs[..k])
  {
    assert KeysOf(cs[..k])[j] == cs[j].key;
  }

  /** Without the last deletion the bucket would still be over its limit. */
  lemma LastIsNeeded(objects: seq<QuotaObject>, limit: nat, just: Text, pins: Pins)
    requires KeysDiffer(objects) && Total(objects) <= U64_MAX && Quota(objects, limit, just, pins).0 != []
    ensures var delete := Quota(objects, limit, just, pins).0;
            var sooner := delete[..|delete| - 1];
            limit > 0 && Total(objects) - TotalOf(objects, set k | k in sooner) > limit
  {
    hide Candidates, Cut, KeysDiffer, Total, TotalOf, Used;
    UsedIsTotal(objects);
    var k := Shortest(objects, limit, just, pins);
    var cs, delete := Candidates(objects, just, pins), Quota(objects, limit, just, pins).0;
    var fewer := cs[..k - 1];
    assert fewer == cs[..k][..k - 1] && delete[..k - 1] == KeysOf(fewer);
    FewerKeysDiffer(cs[..k], k - 1);
    assert forall i :: 0 <= i < |fewer| ==> fewer[i] == cs[..k][i];
    assert (set x | x in KeysOf(fewer)) == KeySet(fewer);
    ChosenTotal(objects, fewer);
  }

  lemma FewerKeysDiffer(s: seq<QuotaObject>, n: nat)
    requires KeysDiffer(s) && n <= |s|
    ensures KeysDiffer(s[..n])
  {
  }

  lemma OneKeyOneObject(objects: seq<QuotaObject>, a: QuotaObject, b: QuotaObject)
    requires KeysDiffer(objects) && a in objects && b in objects && a.key == b.key
    ensures a == b
  {
    var i :| 0 <= i < |objects| && objects[i] == a;
    var j :| 0 <= j < |objects| && objects[j] == b;
    assert i == j;
  }

  /** Every workspace with a copy keeps one. */
  lemma WorkspaceKeepsACopy(objects: seq<QuotaObject>, limit: nat, just: Text, pins: Pins, o: QuotaObject)
    requires KeysDiffer(objects) && o in objects
    ensures exists kept :: kept in objects && kept.id == o.id && kept.key !in Quota(objects, limit, just, pins).0
  {
    hide Quota, NewestOf, KeysDiffer;
    NewestIsNewest(objects, o.id);
    var top := NewestOf(objects)[o.id];
    ProtectedStays(objects, limit, just, pins, top);
  }

  /** Whatever could go and stays is no older than what goes. */
  lemma OldestGoFirst(objects: seq<QuotaObject>, limit: nat, just: Text, pins: Pins, gone: QuotaObject, kept: QuotaObject)
    requires KeysDiffer(objects) && gone in objects && kept in objects && !Protected(objects, just, pins, kept)
    requires gone.key in Quota(objects, limit, just, pins).0 && kept.key !in Quota(objects, limit, just, pins).0
    ensures NoNewer(gone, kept)
  {
    hide Candidates, Cut, Used, MayGo, NewestOf, ByAge, Protected, NoNewer;
    var cs := Candidates(objects, just, pins);
    CandidatesAre(objects, just, pins);
    MayGoIs(objects, just, pins, kept);
    var k := Cut(cs, limit, 0, Used(objects)).0;
    CutWithin(cs, limit, 0, Used(objects));
    var i :| 0 <= i < k && cs[..k][i].key == gone.key;
    assert cs[i] in cs && cs[i] in objects;
    OneKeyOneObject(objects, cs[i], gone);
    assert forall j :: 0 <= j < k ==> cs[j].key == KeysOf(cs[..k])[j] && cs[j].key in KeysOf(cs[..k]);
    assert kept in cs;
    var j :| 0 <= j < |cs| && cs[j] == kept;
    ByAgeIs(gone, kept);
  }

  // ------------------------------------------------------------------ own copies

  function OwnBackups(objects: seq<QuotaObject>, own: set<WorkspaceId>): seq<QuotaObject> {
    Filtered((o: QuotaObject) => o.id in own, objects)
  }

  /** Only, and all of, the copies of the node's own workspaces count, each once. */
  lemma OwnBackupsAre(objects: seq<QuotaObject>, own: set<WorkspaceId>)
    ensures forall o :: o in OwnBackups(objects, own) <==> o in objects && o.id in own
    ensures KeysDiffer(objects) ==> KeysDiffer(OwnBackups(objects, own))
  {
    if KeysDiffer(objects) { FilteredKeysDiffer((o: QuotaObject) => o.id in own, objects); }
  }

  /** Enforcing the quota deletes no object of a workspace this node does not back up. */
  lemma ForeignStays(objects: seq<QuotaObject>, own: set<WorkspaceId>, limit: nat, just: Text, pins: Pins, o: QuotaObject)
    requires KeysDiffer(objects) && o in objects && o.id !in own
    ensures o.key !in Quota(OwnBackups(objects, own), limit, just, pins).0
  {
    hide Quota, NewestOf, MayGo;
    if o.key in Quota(OwnBackups(objects, own), limit, just, pins).0 {
      var gone := DeletedAreCandidates(OwnBackups(objects, own), limit, just, pins, o.key);
      OneKeyOneObject(objects, o, gone);
    }
  }

  // ------------------------------------------------------- copies of one workspace

  /** `stamp` reads the timestamp out of a backup key. */
  predicate Unpinned(stamp: Text -> Option<nat>, pin: Option<nat>, key: Text) {
    pin.Some? && stamp(key).Some? ==> stamp(key).value >= pin.value
  }

  /** Older than the workspace's pin. */
  ghost predicate Pinned(stamp: Text -> Option<nat>, pin: Option<nat>, key: Text) {
    pin.Some? && stamp(key).Some? && stamp(key).value < pin.value
  }

  /** The keys retention looks at, oldest first. */
  function Listed(stamp: Text -> Option<nat>, keys: seq<Text>, pin: Option<nat>): seq<Text> {
    Sort(LexLe, Filtered(k => Unpinned(stamp, pin, k), keys))
  }

  function PruneCandidates(stamp: Text -> Option<nat>, keys: seq<Text>, keep: nat, just: Text, pin: Option<nat>): seq<Text> {
    var listed := Listed(stamp, keys, pin);
    Filtered(k => k != just, listed[..SaturatingSub(|listed|, keep)])
  }

  lemma LexIsOrder()
    ensures TotalPreorder(LexLe)
  {
    forall x, y
      ensures LexLe(x, y) || LexLe(y, x)
    {
      LexTotal(x, y);
    }
    forall x, y, z | LexLe(x, y) && LexLe(y, z)
      ensures LexLe(x, z)
    {
      LexTransitive(x, y, z);
    }
  }

  lemma {:induction false} FilteredUnrepeated(p: Text -> bool, s: seq<Text>)
    requires Unrepeated(s)
    ensures Unrepeated(Filtered(p, s))
  {
    if s != [] {
      var n := |s| - 1;
      FilteredUnrepeated(p, s[..n]);
      assert s[n] !in s[..n];
      var front := Filtered(p, s[..n]);
      assert forall i :: 0 <= i < |front| ==> front[i] in front;
    }
  }

  lemma ListedAre(stamp: Text -> Option<nat>, keys: seq<Text>, pin: Option<nat>)
    ensures var listed := Listed(stamp, keys, pin);
            && Sorted(LexLe, listed)
            && (forall k :: k in listed <==> k in keys && !Pinned(stamp, pin, k))
            && (Unrepeated(keys) ==> Unrepeated(listed))
  {
    hide LexLe, Filtered, Sort, Unrepeated;
    var p := k => Unpinned(stamp, pin, k);
    var s := Filtered(p, keys);
    LexIsOrder();
    SortSorted(LexLe, s);
    MultisetMembers(Sort(LexLe, s), s);
    if Unrepeated(keys) {
      FilteredUnrepeated(p, keys);
      UnrepeatedBySort(Sort(LexLe, s), s);
    }
  }

  lemma {:induction false} AllButOne(s: seq<Text>, just: Text)
    requires Unrepeated(s)
    ensures |Filtered(k => k != just, s)| == if just in s then |s| - 1 else |s|
  {
    if s != [] {
      var n := |s| - 1;
      AllButOne(s[..n], just);
      assert s == s[..n] + [s[n]];
      assert s[n] !in s[..n];
    }
  }

  /** Retention deletes only listed keys, never the fresh copy or a pinned one, and the older before the newer. */
  lemma PruneIsSafe(stamp: Text -> Option<nat>, keys: seq<Text>, keep: nat, just: Text, pin: Option<nat>, gone: Text)
    requires gone in PruneCandidates(stamp, keys, keep, just, pin)
    ensures gone in keys && gone != just && !Pinned(stamp, pin, gone)
    ensures forall k :: k in keys && !Pinned(stamp, pin, k) && k != just && k !in PruneCandidates(stamp, keys, keep, just, pin)
              ==> gone == k || Precedes(gone, k)
  {
    hide Pinned, LexLe, Listed, Precedes;
    ListedAre(stamp, keys, pin);
    var listed := Listed(stamp, keys, pin);
    var n := SaturatingSub(|listed|, keep);
    assert gone in listed[..n];
    var i :| 0 <= i < n && listed[..n][i] == gone;
    assert listed[i] == gone && listed[i] in listed;
    forall k | k in keys && !Pinned(stamp, pin, k) && k != just && k !in PruneCandidates(stamp, keys, keep, just, pin)
      ensures gone == k || Precedes(gone, k)
    {
      assert k in listed && k !in listed[..n];
      var j :| 0 <= j < |listed| && listed[j] == k;
      assert forall m :: 0 <= m < n ==> listed[m] == listed[..n][m] && listed[..n][m] in listed[..n];
      LexLeIs(gone, k);
    }
  }

  /** What stays of the listed keys: `keep` of them, or fewer if there are fewer, or one more when the fresh copy sorts among the oldest. */
  lemma PruneKeeps(stamp: Text -> Option<nat>, keys: seq<Text>, keep: nat, just: Text, pin: Option<nat>)
    requires Unrepeated(keys)
    ensures var listed := Listed(stamp, keys, pin);
            Unrepeated(listed) && forall k :: k in listed <==> k in keys && !Pinned(stamp, pin, k)
    ensures var listed := Listed(stamp, keys, pin);
            var stay := |listed| - |PruneCandidates(stamp, keys, keep, just, pin)|;
            stay == if |listed| <= keep then |listed|
                    else if just in listed[..|listed| - keep] then keep + 1
                    else keep
  {
    hide Pinned, LexLe, Listed, Filtered;
    ListedAre(stamp, keys, pin);
    var listed := Listed(stamp, keys, pin);
    AllButOne(listed[..SaturatingSub(|listed|, keep)], just);
  }
}
