/**
 Backward in-place merge of two sorted vectors, `merge` of data_structure/408/program.cpp.
 */
module MergeSorted {
  import opened Sequences

  /** The merge chosen from the back: the greater last element goes last, the first input winning ties. */
  function Merged(a: seq<int>, b: seq<int>): (r: seq<int>)
    ensures |r| == |a| + |b|
  {
    if b == [] then a
    else if a == [] then b
    else if a[|a| - 1] >= b[|b| - 1] then Merged(a[..|a| - 1], b) + [a[|a| - 1]]
    else Merged(a, b[..|b| - 1]) + [b[|b| - 1]]
  }

  lemma {:induction false} MergedKeepsElements(a: seq<int>, b: seq<int>)
    ensures multiset(Merged(a, b)) == multiset(a) + multiset(b)
    decreases |a| + |b|
  {
    if a != [] && b != [] {
      var a', b' := a[..|a| - 1], b[..|b| - 1];
      assert a == a' + [a[|a| - 1]] && b == b' + [b[|b| - 1]];
      if a[|a| - 1] >= b[|b| - 1] {
        MergedKeepsElements(a', b);
      } else {
        MergedKeepsElements(a, b');
      }
    }
  }

  lemma {:induction false} MergedIsSorted(a: seq<int>, b: seq<int>)
    requires Sorted(a) && Sorted(b)
    ensures Sorted(Merged(a, b))
    decreases |a| + |b|
  {
    if a != [] && b != [] {
      var a', b' := a[..|a| - 1], b[..|b| - 1];
      if a[|a| - 1] >= b[|b| - 1] {
        MergedIsSorted(a', b);
        MergedElementsAre(a', b);
      } else {
        MergedIsSorted(a, b');
        MergedElementsAre(a, b');
      }
    }
  }

  lemma MergedElementsAre(a: seq<int>, b: seq<int>)
    ensures forall i :: 0 <= i < |Merged(a, b)| ==> Merged(a, b)[i] in a || Merged(a, b)[i] in b
  {
    MergedKeepsElements(a, b);
    forall i | 0 <= i < |Merged(a, b)| ensures Merged(a, b)[i] in a || Merged(a, b)[i] in b {
      assert Merged(a, b)[i] in multiset(Merged(a, b));
    }
  }

  /**
   The vector during the merge: the unread part of `a`, then from `k + 1` on the finished part of
   `result`; what is still to be written is the merge of the unread parts.
   */
  ghost predicate Merging(now: seq<int>, a: seq<int>, b: seq<int>, rest: seq<int>, i: int, j: int, k: int) {
    && -1 <= i < |a| && -1 <= j < |b| && k == i + j + 1
    && |now| == |a| + |b| + |rest|
    && now[..i + 1] == a[..i + 1]
    && Merged(a[..i + 1], b[..j + 1]) + now[k + 1..] == Merged(a, b) + rest
  }

  lemma MergingStart(now: seq<int>, a: seq<int>, b: seq<int>, rest: seq<int>)
    requires |now| == |a| + |b| + |rest| && now[..|a|] == a && now[|a| + |b|..] == rest
    ensures Merging(now, a, b, rest, |a| - 1, |b| - 1, |a| + |b| - 1) == true
  {
    assert a[..|a|] == a && b[..|b|] == b;
  }

  lemma MergingStepA(now: seq<int>, next: seq<int>, a: seq<int>, b: seq<int>, rest: seq<int>, i: int, j: int, k: int)
    requires Merging(now, a, b, rest, i, j, k) && i >= 0 && j >= 0 && a[i] >= b[j]
    requires next == now[k := a[i]]
    ensures Merging(next, a, b, rest, i - 1, j, k - 1) == true
  {
    var s, t := a[..i + 1], b[..j + 1];
    assert s[..i] == a[..i];
    assert next[k..] == [a[i]] + now[k + 1..];
    assert next[..i] == now[..i + 1][..i];
    assert Merged(s, t) + now[k + 1..] == Merged(a[..i], t) + next[k..];
  }

  lemma MergingStepB(now: seq<int>, next: seq<int>, a: seq<int>, b: seq<int>, rest: seq<int>, i: int, j: int, k: int)
    requires Merging(now, a, b, rest, i, j, k) && j >= 0 && (i >= 0 ==> a[i] < b[j])
    requires next == now[k := b[j]]
    ensures Merging(next, a, b, rest, i, j - 1, k - 1) == true
  {
    var s, t := a[..i + 1], b[..j + 1];
    assert t[..j] == b[..j] && t == b[..j] + [b[j]];
    assert next[k..] == [b[j]] + now[k + 1..];
    assert next[..i + 1] == now[..i + 1];
    assert Merged(s, t) == Merged(s, b[..j]) + [b[j]];
    assert Merged(s, t) + now[k + 1..] == Merged(s, b[..j]) + next[k..];
  }

  lemma UnreadIsOriginal(now: seq<int>, a: seq<int>, b: seq<int>, rest: seq<int>, i: int, j: int, k: int)
    requires Merging(now, a, b, rest, i, j, k) && i >= 0
    ensures now[i] == a[i]
  {
    assert now[i] == now[..i + 1][i];
  }

  /** What one turn of the first loop needs, and what it leaves. */
  lemma MergingTurn(now: seq<int>, next: seq<int>, a: seq<int>, b: seq<int>, rest: seq<int>, i: int, j: int, k: int)
    requires Merging(now, a, b, rest, i, j, k) && i >= 0 && j >= 0
    ensures i < |a| && j < |b| && 0 <= k < |now| && now[i] == a[i]
    ensures a[i] >= b[j] && next == now[k := a[i]] ==> Merging(next, a, b, rest, i - 1, j, k - 1) == true
    ensures a[i] < b[j] && next == now[k := b[j]] ==> Merging(next, a, b, rest, i, j - 1, k - 1) == true
  {
    UnreadIsOriginal(now, a, b, rest, i, j, k);
    if a[i] >= b[j] && next == now[k := a[i]] {
      MergingStepA(now, next, a, b, rest, i, j, k);
    }
    if a[i] < b[j] && next == now[k := b[j]] {
      MergingStepB(now, next, a, b, rest, i, j, k);
    }
  }

  lemma MergingEnd(now: seq<int>, a: seq<int>, b: seq<int>, rest: seq<int>, i: int, k: int)
    requires Merging(now, a, b, rest, i, -1, k)
    ensures now == Merged(a, b) + rest
  {
    assert b[..0] == [] && now == now[..i + 1] + now[i + 1..];
  }

  /** The first loop of `merge` (lines 23-32), until one of the inputs is used up. */
  method MergeBoth(nums1: array<int>, m: nat, nums2: array<int>, n: nat, ghost a: seq<int>, ghost b: seq<int>, ghost rest: seq<int>)
    returns (i: int, j: int, k: int)
    requires nums1 != nums2 && n <= nums2.Length && b == nums2[..n] && |a| == m
    requires Merging(nums1[..], a, b, rest, m - 1, n - 1, m + n - 1)
    modifies nums1
    ensures Merging(nums1[..], a, b, rest, i, j, k) == true
    ensures i < 0 || j < 0
  {
    i, j, k := m - 1, n - 1, m + n - 1;
    // `== true` keeps the verifier from unfolding the invariant: the step lemmas state it whole.
    while i >= 0 && j >= 0
      invariant Merging(nums1[..], a, b, rest, i, j, k) == true
    {
      ghost var now := nums1[..];
      MergingTurn(now, now, a, b, rest, i, j, k);
      if nums1[i] >= nums2[j] {
        nums1[k] := nums1[i];
        MergingTurn(now, nums1[..], a, b, rest, i, j, k);
        i := i - 1;
      } else {
        nums1[k] := nums2[j];
        MergingTurn(now, nums1[..], a, b, rest, i, j, k);
        j := j - 1;
      }
      k := k - 1;
    }
  }

  /**
   `merge` (lines 19-36).  The first m + n slots end up holding the merge; later slots keep their
   values.  Index `k` of the source is `i + j + 1` throughout, which is why no unread element is
   overwritten.
   */
  method Merge(nums1: array<int>, m: nat, nums2: array<int>, n: nat)
    requires m + n <= nums1.Length && n <= nums2.Length && nums1 != nums2
    modifies nums1
    ensures nums1[..] == Merged(old(nums1[..m]), nums2[..n]) + old(nums1[m + n..])
  {
    ghost var a, b, rest := nums1[..m], nums2[..n], nums1[m + n..];
    MergingStart(nums1[..], a, b, rest);
    var i, j, k := MergeBoth(nums1, m, nums2, n, a, b, rest);
    while j >= 0
      invariant Merging(nums1[..], a, b, rest, i, j, k) == true
      invariant j >= 0 ==> i == -1
    {
      ghost var now := nums1[..];
      nums1[k] := nums2[j];
      MergingStepB(now, nums1[..], a, b, rest, i, j, k);
      k, j := k - 1, j - 1;
    }
    MergingEnd(nums1[..], a, b, rest, i, k);
  }
}
