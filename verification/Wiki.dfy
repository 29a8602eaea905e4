/** The wiki tree, and its paths in the order of the map that holds it. */
module Wiki {
  import opened Bytes
  import opened Sorting

  /** Documents by path. */
  type Tree = map<Text, Text>

  predicate PathBefore(a: Text, b: Text) {
    LexLe(a, b) && a != b
  }

  lemma PathBeforeIs(a: Text, b: Text)
    ensures PathBefore(a, b) <==> Precedes(a, b)
  {
    LexLeIs(a, b);
    if k: nat :| DiffersAt(a, b, k) { assert k < |a| ==> a[k] != b[k]; }
  }

  ghost predicate PathsAscend(s: seq<Text>) {
    forall i, j :: 0 <= i < j < |s| ==> PathBefore(s[i], s[j])
  }

  lemma {:induction false} LeastPathExists(s: set<Text>) returns (m: Text)
    requires s != {}
    ensures m in s && forall x :: x in s ==> LexLe(m, x)
  {
    m := SomeElement(s);
    var x, rest := m, s - {m};
    LexTotal(x, x);
    if rest != {} {
      var n := LeastPathExists(rest);
      LexTotal(n, x);
      if LexLe(n, x) {
        m := n;
      } else {
        forall y | y in rest
          ensures LexLe(x, y)
        {
          LexTransitive(x, n, y);
        }
      }
    }
    assert forall y :: y in s ==> y == x || y in rest;
  }

  lemma LeastPathUnique(s: set<Text>)
    requires s != {}
    ensures exists m :: m in s && forall x :: x in s ==> LexLe(m, x)
    ensures forall m, n :: m in s && n in s && (forall x :: x in s ==> LexLe(m, x)) && (forall x :: x in s ==> LexLe(n, x)) ==> m == n
  {
    var m := LeastPathExists(s);
    forall m, n | m in s && n in s && (forall x :: x in s ==> LexLe(m, x)) && (forall x :: x in s ==> LexLe(n, x))
      ensures m == n
    {
      LexAntisymmetric(m, n);
    }
  }

  function LeastPath(s: set<Text>): (m: Text)
    requires s != {}
    ensures m in s && forall x :: x in s ==> LexLe(m, x)
  {
    LeastPathUnique(s);
    var m :| m in s && forall x :: x in s ==> LexLe(m, x);
    m
  }

  /** The paths of a tree in the map's own order. */
  function Paths(s: set<Text>): (r: seq<Text>)
    ensures PathsAscend(r) && |r| == |s|
    ensures forall x :: x in r <==> x in s
  {
    if s == {} then []
    else
      var m := LeastPath(s);
      [m] + Paths(s - {m})
  }

  /** Ascending sequences with the same members are the same sequence. */
  lemma {:induction false} AscendUnique(a: seq<Text>, b: seq<Text>)
    requires PathsAscend(a) && PathsAscend(b) && forall x :: x in a <==> x in b
    ensures a == b
  {
    assert b == [] || b[0] in b;
    if a != [] {
      assert a[0] in b;
      assert b != [];
      assert b[0] in a;
      var i :| 0 <= i < |b| && b[i] == a[0];
      var k :| 0 <= k < |a| && a[k] == b[0];
      if a[0] != b[0] { LexAntisymmetric(a[0], b[0]); }
      assert a == [a[0]] + a[1..] && b == [b[0]] + b[1..];
      assert a[0] !in a[1..] && b[0] !in b[1..];
      forall x
        ensures x in a[1..] <==> x in b[1..]
      {
        assert x in a <==> x == a[0] || x in a[1..];
        assert x in b <==> x == b[0] || x in b[1..];
      }
      AscendUnique(a[1..], b[1..]);
    }
  }
}
