/**
  The wallutils package's `unique`, which drops repeated elements and keeps
  the first occurrence of each in input order, together with this model's
  own first-occurrence lookup `IndexOf` used to state that order.
 */
module Seqs {

  predicate NoDuplicates<T(==)>(s: seq<T>) {
    forall i, j :: 0 <= i < j < |s| ==> s[i] != s[j]
  }

  /** The position of the first occurrence of `x` in `s`. */
  function IndexOf<T(==)>(s: seq<T>, x: T): (i: nat)
    requires x in s
    ensures i < |s| && s[i] == x
    ensures forall j :: 0 <= j < i ==> s[j] != x
  {
    if s[0] == x then 0
    else
      assert x in s[1..] by {
        var k :| 0 <= k < |s| && s[k] == x;
        assert s[1..][k - 1] == x;
      }
      1 + IndexOf(s[1..], x)
  }

  /** A prefix that already holds `x` places its first occurrence where the whole sequence does. */
  lemma IndexOfPrefix<T>(s: seq<T>, k: nat, x: T)
    requires k <= |s| && x in s[..k]
    ensures IndexOf(s, x) == IndexOf(s[..k], x)
  {
    var i, j := IndexOf(s, x), IndexOf(s[..k], x);
    assert s[j] == s[..k][j];
    assert i <= j;
    assert s[..k][i] == s[i];
  }

  /**
    First-occurrence de-duplication. The package's `unique` is not part of
    this model; this definition is the behaviour assumed for it: walk the
    input once and append each element that has not been appended before.
    `Unique(s[..i])` is the result after `i` steps of that walk.
   */
  function Unique<T(==)>(s: seq<T>): (u: seq<T>)
    ensures NoDuplicates(u)
    ensures forall i :: 0 <= i < |u| ==> u[i] in s
    ensures forall i :: 0 <= i < |s| ==> s[i] in u
    decreases |s|
  {
    if |s| == 0 then []
    else
      var up := Unique(s[..|s| - 1]);
      var x := s[|s| - 1];
      assert forall i :: 0 <= i < |s| - 1 ==> s[i] == s[..|s| - 1][i];
      if x in up then up else up + [x]
  }

  /** The elements `Unique` keeps appear in the order of their first occurrence in the input. */
  lemma {:induction false} UniqueKeepsFirstOccurrenceOrder<T>(s: seq<T>)
    ensures forall i, j :: 0 <= i < j < |Unique(s)| ==> IndexOf(s, Unique(s)[i]) < IndexOf(s, Unique(s)[j])
    decreases |s|
  {
    if |s| > 0 {
      var p := s[..|s| - 1];
      var x := s[|s| - 1];
      var up := Unique(p);
      UniqueKeepsFirstOccurrenceOrder(p);
      forall y | y in p
        ensures IndexOf(s, y) == IndexOf(p, y)
      {
        IndexOfPrefix(s, |s| - 1, y);
      }
      if x !in up {
        assert x !in p;
        assert IndexOf(s, x) == |s| - 1;
      }
    }
  }

  /** `Unique` leaves a sequence without repetitions as it is. */
  lemma {:induction false} UniqueOfDistinct<T>(s: seq<T>)
    requires NoDuplicates(s)
    ensures Unique(s) == s
    decreases |s|
  {
    if |s| > 0 {
      var p := s[..|s| - 1];
      UniqueOfDistinct(p);
      assert s[|s| - 1] !in p;
    }
  }

  /** Applying `Unique` twice is the same as applying it once. */
  lemma UniqueIdempotent<T>(s: seq<T>)
    ensures Unique(Unique(s)) == Unique(s)
  {
    UniqueOfDistinct(Unique(s));
  }
}
