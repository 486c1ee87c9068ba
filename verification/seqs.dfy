/** Facts about sequences without repeated elements, shared by the Sudoku modules. */
module Seqs {

  /** No element occurs twice. */
  ghost predicate Distinct<T>(s: seq<T>)
  {
    forall i, j :: 0 <= i < j < |s| ==> s[i] != s[j]
  }

  lemma DistinctAppend<T>(s: seq<T>, x: T)
    requires Distinct(s) && x !in s
    ensures Distinct(s + [x])
  {
  }

  /** A sequence is without repeats exactly when no element has multiplicity above one. */
  lemma {:induction false} DistinctMultiplicity<T>(s: seq<T>)
    ensures Distinct(s) <==> forall x :: multiset(s)[x] <= 1
  {
    if |s| > 0 {
      var init, last := s[..|s| - 1], s[|s| - 1];
      assert s == init + [last];
      DistinctMultiplicity(init);
      if Distinct(s) {
        assert Distinct(init);
        forall k | 0 <= k < |init|
          ensures init[k] != last
        {
          assert s[k] != s[|s| - 1];
        }
      } else {
        var i, j :| 0 <= i < j < |s| && s[i] == s[j];
        if j < |s| - 1 {
          assert !Distinct(init) by { assert init[i] == init[j]; }
          var x :| multiset(init)[x] > 1;
          assert multiset(s)[x] >= multiset(init)[x];
        } else {
          assert init[i] == last;
          assert multiset(s)[last] == multiset(init)[last] + 1;
        }
      }
    }
  }

  /** A permutation of a sequence without repeats has none either. */
  lemma PermutationDistinct<T>(a: seq<T>, b: seq<T>)
    requires multiset(a) == multiset(b) && Distinct(b)
    ensures Distinct(a)
  {
    DistinctMultiplicity(a);
    DistinctMultiplicity(b);
  }
}
