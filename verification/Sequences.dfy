/** Sequences used as lists without repetition, and regrouping. */
module Sequences {
  lemma Regroup<T>(a: seq<T>, b: seq<T>, c: seq<T>)
    ensures (a + b) + c == a + (b + c)
  {
  }

  function IndexOf<T(==)>(s: seq<T>, x: T): (i: nat)
    requires x in s
    ensures i < |s| && s[i] == x && x !in s[..i]
  {
    if s[0] == x then 0 else 1 + IndexOf(s[1..], x)
  }

  function Without<T(==)>(s: seq<T>, x: T): seq<T> {
    if x in s then s[..IndexOf(s, x)] + s[IndexOf(s, x) + 1..] else s
  }

  predicate Distinct<T(==)>(s: seq<T>) { forall i, j | 0 <= i < j < |s| :: s[i] != s[j] }

  lemma WithoutDistinct<T>(s: seq<T>, x: T)
    requires Distinct(s)
    ensures Distinct(Without(s, x)) && x !in Without(s, x)
    ensures forall y :: y in Without(s, x) <==> y in s && y != x
  {
    if x in s {
      DroppedAt(s, IndexOf(s, x));
    }
  }

  lemma DroppedAt<T>(s: seq<T>, k: nat)
    requires Distinct(s) && k < |s|
    ensures var r := s[..k] + s[k + 1..];
      Distinct(r) && s[k] !in r && forall y :: y in r <==> y in s && y != s[k]
  {
    var r := s[..k] + s[k + 1..];
    forall y ensures y in r <==> y in s && y != s[k] {
      if y in s && y != s[k] {
        var j :| 0 <= j < |s| && s[j] == y;
        assert r[if j < k then j else j - 1] == y;
      }
    }
    DroppedOrder(s, k);
  }

  lemma DroppedOrder<T>(s: seq<T>, k: nat)
    requires Distinct(s) && k < |s|
    ensures Distinct(s[..k] + s[k + 1..])
  {
    var r := s[..k] + s[k + 1..];
    forall i, j | 0 <= i < j < |r| ensures r[i] != r[j] {
      assert r[i] == s[if i < k then i else i + 1] && r[j] == s[if j < k then j else j + 1];
    }
  }

  lemma WithoutAt<T>(s: seq<T>, i: nat)
    requires Distinct(s) && i < |s|
    ensures Without(s, s[i]) == s[..i] + s[i + 1..]
  {
    assert IndexOf(s, s[i]) == i;
  }

  lemma WithoutFirst<T>(s: seq<T>, x: T)
    ensures Without([x] + s, x) == s
  {
    assert ([x] + s)[..0] + ([x] + s)[1..] == s;
  }

  /** u comes before v. */
  ghost predicate Before<T>(s: seq<T>, u: T, v: T) {
    exists i, j :: 0 <= i < j < |s| && s[i] == u && s[j] == v
  }

  lemma PrependKeepsOrder<T>(s: seq<T>, x: T, u: T, v: T)
    requires Before(s, u, v)
    ensures Before([x] + s, u, v)
  {
    var i, j :| 0 <= i < j < |s| && s[i] == u && s[j] == v;
    var r := [x] + s;
    assert r[i + 1] == u && r[j + 1] == v;
  }

  lemma RemovedIndex<T>(s: seq<T>, k: nat, i: nat)
    requires k < |s| && i < |s| && i != k
    ensures var j := if i < k then i else i - 1; j < |s| - 1 && (s[..k] + s[k + 1..])[j] == s[i]
  {
  }

  lemma OrderedAt<T>(s: seq<T>, i: nat, j: nat)
    requires i < j < |s|
    ensures Before(s, s[i], s[j])
  {
  }

  lemma WithoutKeepsOrder<T>(s: seq<T>, x: T, u: T, v: T)
    requires Before(s, u, v) && x != u && x != v
    ensures Before(Without(s, x), u, v)
  {
    if x in s {
      DroppedKeepsOrder(s, IndexOf(s, x), u, v);
    }
  }

  lemma DroppedKeepsOrder<T>(s: seq<T>, k: nat, u: T, v: T)
    requires k < |s| && Before(s, u, v) && s[k] != u && s[k] != v
    ensures Before(s[..k] + s[k + 1..], u, v)
  {
    var i, j :| 0 <= i < j < |s| && s[i] == u && s[j] == v;
    hide Before;
    RemovedIndex(s, k, i);
    RemovedIndex(s, k, j);
    OrderedAt(s[..k] + s[k + 1..], if i < k then i else i - 1, if j < k then j else j - 1);
  }
}
