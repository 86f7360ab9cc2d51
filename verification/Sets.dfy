// Cardinalities of finite sets.

module Sets {
  ghost function PickOne<T>(s: set<T>): (x: T)
    requires s != {}
    ensures x in s
  {
    var x :| x in s; x
  }

  lemma SubsetSize<T>(A: set<T>, B: set<T>)
    requires A <= B
    ensures |A| <= |B|
  {
    if A != {} {
      var x :| x in A;
      SubsetSize(A - {x}, B - {x});
    }
  }

  lemma MinusSize<T>(A: set<T>, B: set<T>)
    requires B <= A
    ensures |A - B| == |A| - |B|
  {
    assert A == (A - B) + B;
  }

  lemma SubsetOfSameSize<T>(A: set<T>, B: set<T>)
    requires A <= B && |B| <= |A|
    ensures A == B
  {
    if x :| x in B && x !in A {
      SubsetSize(A, B - {x});
    }
  }
}
