/**
 Boyer-Moore majority voting, `majority_element` of data_structure/408/program.cpp.
 */
module Majority {
  import opened Sequences

  /**
   `majority_element` (lines 90-107).  Reading `s1[0]` needs a non-empty array.  The result
   always occurs in the array, and it is the majority whenever there is one.
   */
  method MajorityElement(s1: seq<int>) returns (candidate: int)
    requires |s1| > 0
    ensures candidate in s1
    ensures forall x :: 2 * multiset(s1)[x] > |s1| ==> candidate == x
  {
    var count := 0;
    candidate := s1[0];
    for i := 0 to |s1|
      invariant count >= 0 && candidate in s1
      invariant 2 * Count(s1[..i], candidate) <= i + count
      invariant forall x :: x != candidate ==> 2 * Count(s1[..i], x) <= i - count
    {
      assert s1[..i + 1][..i] == s1[..i];
      if count == 0 {
        candidate := s1[i];
        count := count + 1;
      } else if s1[i] == candidate {
        count := count + 1;
      } else {
        count := count - 1;
      }
    }
    assert s1[..|s1|] == s1;
    forall x | 2 * multiset(s1)[x] > |s1| ensures candidate == x {
      CountIsMultiplicity(s1, x);
    }
  }
}
