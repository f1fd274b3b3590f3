/** Distinct values of a column in first-appearance order, as pandas'
    `Series.unique()` returns them (used for the country and indicator menus
    and to enumerate group-by keys). */
module Distinct {

  /** No value occurs twice. */
  predicate NoDuplicates<T(==)>(s: seq<T>) {
    forall i, j :: 0 <= i < j < |s| ==> s[i] != s[j]
  }

  /** Position of the first occurrence of `x` in `s`. */
  function IndexOf<T(==)>(s: seq<T>, x: T): (k: nat)
    requires x in s
    ensures k < |s| && s[k] == x
    ensures forall j :: 0 <= j < k ==> s[j] != x
  {
    if s[0] == x then 0 else 1 + IndexOf(s[1..], x)
  }

  /** The distinct values of `s`, each kept at its first appearance. */
  function Unique<T(==,!new)>(s: seq<T>): (u: seq<T>)
    ensures NoDuplicates(u)
    ensures forall x :: x in u <==> x in s
    ensures |u| <= |s|
  {
    if s == [] then []
    else
      var init := s[..|s| - 1];
      assert forall x :: x in s <==> x in init || x == s[|s| - 1];
      var u' := Unique(init);
      if s[|s| - 1] in u' then u' else u' + [s[|s| - 1]]
  }

  /** The first occurrence of a value in a prefix is its first occurrence in
      the whole sequence. */
  lemma IndexOfPrefix<T>(s: seq<T>, n: nat, x: T)
    requires n <= |s| && x in s[..n]
    ensures IndexOf(s, x) == IndexOf(s[..n], x)
  {
    var k1, k2 := IndexOf(s, x), IndexOf(s[..n], x);
    assert s[k2] == x;
    assert s[..n][k1] == x by { if k1 > k2 { assert false; } }
  }

  /** `Unique` lists values in the order of their first appearance. */
  lemma {:induction false} UniqueFirstAppearance<T(!new)>(s: seq<T>)
    ensures forall i, j :: 0 <= i < j < |Unique(s)| ==>
      IndexOf(s, Unique(s)[i]) < IndexOf(s, Unique(s)[j])
  {
    if s != [] {
      var n := |s| - 1;
      var init := s[..n];
      assert forall x :: x in s <==> x in init || x == s[n];
      UniqueFirstAppearance(init);
      var u', u := Unique(init), Unique(s);
      forall i | 0 <= i < |u'|
        ensures IndexOf(s, u'[i]) == IndexOf(init, u'[i]) < n
      {
        IndexOfPrefix(s, n, u'[i]);
      }
      if s[n] !in u' {
        assert s[n] !in init;
        assert IndexOf(s, s[n]) == n;
        assert u == u' + [s[n]];
      }
    }
  }
}
