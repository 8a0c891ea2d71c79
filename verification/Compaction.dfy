/**
 In-place compaction of a vector, from data_structure/408/program.cpp: `remove_element`,
 `remove_duplicates` and `remove_duplicates_2`.  Each reads and writes the same array and
 returns the length of the compacted prefix.
 */
module Compaction {
  import opened Sequences

  function Filter(s: seq<int>, val: int): (r: seq<int>)
    ensures |r| <= |s|
  {
    if s == [] then []
    else if s[|s| - 1] != val then Filter(s[..|s| - 1], val) + [s[|s| - 1]]
    else Filter(s[..|s| - 1], val)
  }

  /** How many equal elements in a row end with the last element of `s`. */
  function LastRun(s: seq<int>): (n: nat)
    ensures s != [] ==> n >= 1
    ensures n <= |s|
  {
    if s == [] then 0
    else if |s| > 1 && s[|s| - 2] == s[|s| - 1] then LastRun(s[..|s| - 1]) + 1
    else 1
  }

  /** `s` with every run of equal neighbours cut down to its first `cap` elements. */
  function CapRuns(s: seq<int>, cap: nat): (r: seq<int>)
    ensures |r| <= |s|
  {
    if s == [] then []
    else if LastRun(s) <= cap then CapRuns(s[..|s| - 1], cap) + [s[|s| - 1]]
    else CapRuns(s[..|s| - 1], cap)
  }

  /** Capping keeps the last value and leaves a last run of exactly min(run, cap). */
  lemma {:induction false} CapKeepsLastRun(s: seq<int>, cap: nat)
    requires s != [] && cap >= 1
    ensures var r := CapRuns(s, cap);
      r != [] && r[|r| - 1] == s[|s| - 1] && LastRun(r) == Min(LastRun(s), cap)
  {
    var t, r := s[..|s| - 1], CapRuns(s, cap);
    if t == [] {
      assert r == [s[0]];
    } else {
      CapKeepsLastRun(t, cap);
      if LastRun(s) <= cap {
        assert r[..|r| - 1] == CapRuns(t, cap);
      }
    }
  }

  /** Capping twice is capping once, at the smaller bound. */
  lemma {:induction false} CapTwice(s: seq<int>, wide: nat, narrow: nat)
    requires 1 <= narrow <= wide
    ensures CapRuns(CapRuns(s, wide), narrow) == CapRuns(s, narrow)
  {
    if s != [] {
      var t, r := s[..|s| - 1], CapRuns(s, wide);
      CapTwice(t, wide, narrow);
      CapKeepsLastRun(s, wide);
      if LastRun(s) <= wide {
        assert r[..|r| - 1] == CapRuns(t, wide);
      }
    }
  }

  /** No run of the result is longer than the cap. */
  lemma {:induction false} NoLongRunsLeft(s: seq<int>, cap: nat, i: nat)
    requires cap >= 1 && i <= |CapRuns(s, cap)|
    ensures LastRun(CapRuns(s, cap)[..i]) <= cap
  {
    if s != [] {
      var t, r := s[..|s| - 1], CapRuns(s, cap);
      if i == |r| {
        CapKeepsLastRun(s, cap);
        assert r[..i] == r;
      } else {
        assert r[..i] == CapRuns(t, cap)[..i];
        NoLongRunsLeft(t, cap, i);
      }
    }
  }

  /** On sorted input the copies of the greatest value are exactly the last run. */
  lemma {:induction false} SortedLastRun(s: seq<int>)
    requires Sorted(s) && s != []
    ensures LastRun(s) == Count(s, s[|s| - 1])
  {
    var t, x := s[..|s| - 1], s[|s| - 1];
    if |s| > 1 {
      SortedLastRun(t);
      if t[|t| - 1] != x {
        CountAbove(t, x);
      }
    }
  }

  lemma {:induction false} CountAbove(s: seq<int>, x: int)
    requires forall i :: 0 <= i < |s| ==> s[i] < x
    ensures Count(s, x) == 0
  {
    if s != [] {
      CountAbove(s[..|s| - 1], x);
    }
  }

  /** On sorted input every value survives min(cap, count) times and the result is sorted. */
  lemma {:induction false} CapSorted(s: seq<int>, cap: nat, x: int)
    requires Sorted(s)
    ensures Sorted(CapRuns(s, cap))
    ensures Count(CapRuns(s, cap), x) == Min(cap, Count(s, x))
    ensures forall y :: y in CapRuns(s, cap) ==> y in s
  {
    if s != [] {
      var t, r := s[..|s| - 1], CapRuns(s, cap);
      CapSorted(t, cap, x);
      SortedLastRun(s);
      if LastRun(s) <= cap {
        assert r[..|r| - 1] == CapRuns(t, cap);
        forall i | 0 <= i < |r| - 1 ensures r[i] <= r[|r| - 1] {
          assert r[i] in CapRuns(t, cap);
          assert r[i] in t;
        }
      }
    }
  }

  /** The filter keeps every other value as often as before and drops `val` altogether. */
  lemma {:induction false} FilterCounts(s: seq<int>, val: int, x: int)
    ensures Count(Filter(s, val), x) == if x == val then 0 else Count(s, x)
  {
    if s != [] {
      var t, r := s[..|s| - 1], Filter(s, val);
      FilterCounts(t, val, x);
      if s[|s| - 1] != val {
        assert r[..|r| - 1] == Filter(t, val);
      }
    }
  }

  /** The filter looks at each element by itself and keeps the order. */
  lemma {:induction false} FilterDistributes(a: seq<int>, b: seq<int>, val: int)
    ensures Filter(a + b, val) == Filter(a, val) + Filter(b, val)
    ensures forall x :: Filter([x], val) == if x == val then [] else [x]
  {
    assert forall x: int :: [x][..0] == [];
    if b == [] {
      assert a + b == a;
    } else {
      assert (a + b)[..|a + b| - 1] == a + b[..|b| - 1];
      FilterDistributes(a, b[..|b| - 1], val);
    }
  }

  function Repeat(x: int, n: nat): (r: seq<int>)
    ensures |r| == n && forall i :: 0 <= i < n ==> r[i] == x
  {
    seq(n, _ => x)
  }

  lemma OneMoreOfRun(s: seq<int>, x: int, n: nat)
    requires n > 0
    ensures (s + Repeat(x, n))[..|s| + n - 1] == s + Repeat(x, n - 1) && (s + Repeat(x, n))[|s| + n - 1] == x
  {
  }

  lemma {:induction false} LastRunIsRun(s: seq<int>, x: int, n: nat)
    requires n > 0 && (s == [] || s[|s| - 1] != x)
    ensures LastRun(s + Repeat(x, n)) == n
  {
    OneMoreOfRun(s, x, n);
    if n > 1 {
      LastRunIsRun(s, x, n - 1);
    }
  }

  /** Whatever comes before it, a run of n equal elements is cut down to its first min(n, cap). */
  lemma {:induction false} RunIsCapped(s: seq<int>, x: int, n: nat, cap: nat)
    requires s == [] || s[|s| - 1] != x
    ensures CapRuns(s + Repeat(x, n), cap) == CapRuns(s, cap) + Repeat(x, if n < cap then n else cap)
  {
    if n == 0 {
      assert s + Repeat(x, 0) == s;
    } else {
      RunIsCapped(s, x, n - 1, cap);
      RunStep(s, x, n, cap);
      RepeatMore(CapRuns(s, cap), x, n - 1);
    }
  }

  lemma RunStep(s: seq<int>, x: int, n: nat, cap: nat)
    requires n > 0 && (s == [] || s[|s| - 1] != x)
    ensures var before := CapRuns(s + Repeat(x, n - 1), cap);
      CapRuns(s + Repeat(x, n), cap) == if n <= cap then before + [x] else before
  {
    OneMoreOfRun(s, x, n);
    LastRunIsRun(s, x, n);
  }

  lemma RepeatMore(r: seq<int>, x: int, n: nat)
    ensures (r + Repeat(x, n)) + [x] == r + Repeat(x, n + 1)
  {
  }

  /** What the compaction loops leave: the compacted prefix, then the slots never written. */
  ghost predicate Compacted(now: seq<int>, was: seq<int>, kept: seq<int>) {
    |now| == |was| && |kept| <= |now| && now == kept + was[|kept|..]
  }

  lemma FilterNext(s: seq<int>, val: int, i: nat)
    requires i < |s|
    ensures Filter(s[..i + 1], val) == if s[i] != val then Filter(s[..i], val) + [s[i]] else Filter(s[..i], val)
  {
    assert s[..i + 1][..i] == s[..i];
  }

  /** One more element, in terms of the run that ends before it. */
  lemma CapNext(s: seq<int>, cap: nat, i: nat)
    requires 0 < i < |s|
    ensures LastRun(s[..i + 1]) == if s[i] == s[i - 1] then LastRun(s[..i]) + 1 else 1
    ensures CapRuns(s[..i + 1], cap) ==
            if LastRun(s[..i + 1]) <= cap then CapRuns(s[..i], cap) + [s[i]] else CapRuns(s[..i], cap)
  {
    assert s[..i + 1][..i] == s[..i];
  }

  lemma KeepOne(now: seq<int>, next: seq<int>, was: seq<int>, kept: seq<int>, x: int)
    requires Compacted(now, was, kept) && |kept| < |was|
    requires next == now[|kept| := x]
    ensures Compacted(next, was, kept + [x])
  {
    assert next == (kept + [x]) + was[|kept| + 1..];
  }

  /** The slots past the compacted prefix still hold their original values. */
  lemma UnwrittenTail(now: seq<int>, was: seq<int>, kept: seq<int>, i: nat)
    requires Compacted(now, was, kept) && |kept| <= i < |was|
    ensures now[i] == was[i]
  {
  }

  /** `remove_element` (lines 38-49). */
  method RemoveElement(s1: array<int>, val: int) returns (num: nat)
    modifies s1
    ensures num == |Filter(old(s1[..]), val)|
    ensures Compacted(s1[..], old(s1[..]), Filter(old(s1[..]), val))
  {
    num := 0;
    ghost var was := s1[..];
    for i := 0 to s1.Length
      invariant num == |Filter(was[..i], val)| <= i
      invariant Compacted(s1[..], was, Filter(was[..i], val))
    {
      FilterNext(was, val, i);
      UnwrittenTail(s1[..], was, Filter(was[..i], val), i);
      ghost var now := s1[..];
      if s1[i] != val {
        s1[num] := s1[i];
        KeepOne(now, s1[..], was, Filter(was[..i], val), was[i]);
        num := num + 1;
      }
    }
    assert was[..s1.Length] == was;
  }

  /** `remove_duplicates` (lines 51-62).  Reading `s1[0]` needs a non-empty array. */
  method RemoveDuplicates(s1: array<int>) returns (num: nat)
    requires s1.Length > 0
    modifies s1
    ensures num == |CapRuns(old(s1[..]), 1)|
    ensures Compacted(s1[..], old(s1[..]), CapRuns(old(s1[..]), 1))
  {
    num := 1;
    var currentFlagNum := s1[0];
    ghost var was := s1[..];
    assert was[..1] == [was[0]];
    var i := 1;
    while i < s1.Length
      invariant 1 <= i <= s1.Length
      invariant currentFlagNum == was[i - 1]
      invariant num == |CapRuns(was[..i], 1)| <= i
      invariant Compacted(s1[..], was, CapRuns(was[..i], 1))
    {
      CapNext(was, 1, i);
      UnwrittenTail(s1[..], was, CapRuns(was[..i], 1), i);
      ghost var now := s1[..];
      if s1[i] != currentFlagNum {
        currentFlagNum := s1[i];
        s1[num] := s1[i];
        KeepOne(now, s1[..], was, CapRuns(was[..i], 1), was[i]);
        num := num + 1;
      }
      i := i + 1;
    }
    assert was[..s1.Length] == was;
  }

  /** `remove_duplicates_2` (lines 64-88).  Reading `s1[0]` needs a non-empty array. */
  method RemoveDuplicates2(s1: array<int>) returns (slow: nat)
    requires s1.Length > 0
    modifies s1
    ensures slow == |CapRuns(old(s1[..]), 2)|
    ensures Compacted(s1[..], old(s1[..]), CapRuns(old(s1[..]), 2))
  {
    slow := 1;
    var fast := 1;
    var currentFlagNum := s1[0];
    var numOfNum := 1;
    ghost var was := s1[..];
    assert was[..1] == [was[0]];
    while fast < s1.Length
      invariant 1 <= fast <= s1.Length
      invariant currentFlagNum == was[fast - 1]
      invariant numOfNum == LastRun(was[..fast])
      invariant slow == |CapRuns(was[..fast], 2)| <= fast
      invariant Compacted(s1[..], was, CapRuns(was[..fast], 2))
    {
      CapNext(was, 2, fast);
      UnwrittenTail(s1[..], was, CapRuns(was[..fast], 2), fast);
      ghost var now := s1[..];
      if s1[fast] != currentFlagNum {
        currentFlagNum := s1[fast];
        s1[slow] := s1[fast];
        KeepOne(now, s1[..], was, CapRuns(was[..fast], 2), was[fast]);
        slow := slow + 1;
        fast := fast + 1;
        numOfNum := 1;
      } else if numOfNum < 2 {
        s1[slow] := s1[fast];
        KeepOne(now, s1[..], was, CapRuns(was[..fast], 2), was[fast]);
        slow := slow + 1;
        fast := fast + 1;
        numOfNum := numOfNum + 1;
      } else {
        fast := fast + 1;
        numOfNum := numOfNum + 1;
      }
    }
    assert was[..s1.Length] == was;
  }
}
