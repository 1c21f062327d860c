/** Sequences standing for the iteration order of Java's hash-based
    collections, whose order `HashSet` and `HashMap` never fix, and the largest element
    of a set of integers. */
module Seqs {

  /** No element occurs twice (stated from the back, as sequences grow by appending). */
  predicate NoDuplicates<T(==)>(s: seq<T>)
  {
    s == [] || (s[|s| - 1] !in s[..|s| - 1] && NoDuplicates(s[..|s| - 1]))
  }

  /** The recursive statement means what it says: distinct positions hold distinct elements. */
  lemma {:induction false} NoDuplicatesAt<T>(s: seq<T>, i: nat, j: nat)
    requires NoDuplicates(s) && i < j < |s|
    ensures s[i] != s[j]
    decreases |s|
  {
    var front := s[..|s| - 1];
    if j == |s| - 1 {
      assert s[i] == front[i];
    } else {
      NoDuplicatesAt(front, i, j);
    }
  }

  /** `s` lists every element of `elements` exactly once, in some order. */
  predicate Enumerates<T(==)>(s: seq<T>, elements: set<T>)
  {
    && NoDuplicates(s)
    && (forall k :: 0 <= k < |s| ==> s[k] in elements)
    && (forall x :: x in elements ==> x in s)
  }

  /** The elements of a sequence, as a set. */
  function Elements<T(==)>(s: seq<T>): set<T>
  {
    set x | x in s
  }

  /** Some element of a non-empty set. */
  lemma Pick(s: set<int>) returns (x: int)
    requires s != {}
    ensures x in s
  {
    if forall y :: y !in s {
      assert false;
    }
    x :| x in s;
  }

  /** A non-empty finite set of integers has a largest element. */
  lemma {:induction false} MaxExists(s: set<int>)
    requires s != {}
    ensures exists x :: x in s && forall y :: y in s ==> y <= x
    decreases |s|
  {
    var x := Pick(s);
    var s' := s - {x};
    assert forall y :: y in s ==> y == x || y in s';
    if s' == {} {
      assert forall y :: y in s ==> y <= x;
    } else {
      MaxExists(s');
      var m :| m in s' && forall y :: y in s' ==> y <= m;
      var top := if x > m then x else m;
      assert top in s && forall y :: y in s ==> y <= top;
    }
  }

  /** The largest element, as `IntStream.max` finds it. */
  function Max(s: set<int>): (r: int)
    requires s != {}
    ensures r in s && forall x :: x in s ==> x <= r
  {
    MaxExists(s);
    var x :| x in s && forall y :: y in s ==> y <= x;
    x
  }
}
