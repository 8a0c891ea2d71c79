/**
 The jump-game routines of data_structure/408/program.cpp.  From index `i` one may hop
 forward to any index up to `i + s[i]`.  A route is a sequence of hops that starts at index 0.
 */
module JumpGame {
  import opened Sequences

  function Max(a: int, b: int): int { if a > b then a else b }

  predicate Hop(s: seq<int>, i: int, j: int) {
    0 <= i < j < |s| && j <= i + s[i]
  }

  /** `p` lists the indices visited by a route from index 0 to `target`; it makes |p| - 1 hops. */
  ghost predicate Route(s: seq<int>, p: seq<int>, target: int) {
    && 0 <= target < |s|
    && |p| > 0 && p[0] == 0 && p[|p| - 1] == target
    && forall i :: 0 <= i < |p| - 1 ==> Hop(s, p[i], p[i + 1])
  }

  ghost predicate CanReach(s: seq<int>, target: int) {
    exists p :: Route(s, p, target)
  }

  ghost predicate CanReachWithin(s: seq<int>, target: int, hops: nat) {
    exists p :: Route(s, p, target) && |p| - 1 <= hops
  }

  /** The furthest landing point of one hop from any of the first `m` indices (0 if none goes further). */
  ghost function Furthest(s: seq<int>, m: nat): int
    requires m <= |s|
  {
    if m == 0 then 0 else Max(Furthest(s, m - 1), m - 1 + s[m - 1])
  }

  /** Where the greedy scan's window ends after `k` window changes. */
  ghost function Frontier(s: seq<int>, k: nat): (f: int)
    ensures f >= 0
  {
    if k == 0 then 0
    else FurthestAtLeastZero(s, Min(Frontier(s, k - 1) + 1, |s|)); Furthest(s, Min(Frontier(s, k - 1) + 1, |s|))
  }

  lemma {:induction false} FurthestAtLeastZero(s: seq<int>, m: nat)
    requires m <= |s|
    ensures Furthest(s, m) >= 0
  {
    if m > 0 {
      FurthestAtLeastZero(s, m - 1);
    }
  }

  lemma {:induction false} FurthestMonotone(s: seq<int>, m: nat, n: nat)
    requires m <= n <= |s|
    ensures Furthest(s, m) <= Furthest(s, n)
    ensures forall i :: m <= i < n ==> i + s[i] <= Furthest(s, n)
    decreases n - m
  {
    if m < n {
      FurthestMonotone(s, m, n - 1);
    }
  }

  lemma {:induction false} FurthestWitness(s: seq<int>, m: nat) returns (i: nat)
    requires m <= |s| && Furthest(s, m) > 0
    ensures i < m && i + s[i] == Furthest(s, m)
  {
    if m - 1 + s[m - 1] == Furthest(s, m) {
      i := m - 1;
    } else {
      i := FurthestWitness(s, m - 1);
    }
  }

  lemma {:induction false} FrontierMonotone(s: seq<int>, j: nat, k: nat)
    requires j <= k
    ensures Frontier(s, j) <= Frontier(s, k)
    decreases k
  {
    if j < k {
      if j > 0 {
        FrontierMonotone(s, j - 1, k - 1);
        FurthestMonotone(s, Min(Frontier(s, j - 1) + 1, |s|), Min(Frontier(s, k - 1) + 1, |s|));
      }
    }
  }

  /** No route of h hops gets past Frontier(h). */
  lemma {:induction false} RouteStaysWithinFrontier(s: seq<int>, p: seq<int>, target: int)
    requires Route(s, p, target)
    ensures target <= Frontier(s, |p| - 1)
    decreases |p|
  {
    if |p| > 1 {
      var q, last := p[..|p| - 1], p[|p| - 2];
      assert Hop(s, p[|p| - 2], p[|p| - 1]);
      assert forall i :: 0 <= i < |q| - 1 ==> Hop(s, q[i], q[i + 1]) by {
        assert forall i :: 0 <= i < |q| - 1 ==> Hop(s, p[i], p[i + 1]);
      }
      RouteStaysWithinFrontier(s, q, last);
      FurthestMonotone(s, last, Min(Frontier(s, |q| - 1) + 1, |s|));
    }
  }

  /** Every index up to Frontier(k) has a route of at most k hops. */
  lemma {:induction false} FrontierIsReachable(s: seq<int>, k: nat, target: int) returns (p: seq<int>)
    requires 0 <= target < |s| && target <= Frontier(s, k)
    ensures Route(s, p, target) && |p| - 1 <= k
    decreases k
  {
    if k == 0 {
      p := [0];
    } else if target <= Frontier(s, k - 1) {
      p := FrontierIsReachable(s, k - 1, target);
    } else {
      var i := FurthestWitness(s, Min(Frontier(s, k - 1) + 1, |s|));
      var q := FrontierIsReachable(s, k - 1, i);
      p := q + [target];
      assert forall j :: 0 <= j < |q| - 1 ==> Hop(s, q[j], q[j + 1]);
      assert Hop(s, i, target);
    }
  }

  /** The indices reachable in at most k hops are exactly the prefix that ends at Frontier(k). */
  lemma ReachableWithinIsPrefix(s: seq<int>, target: int, k: nat)
    requires 0 <= target < |s|
    ensures CanReachWithin(s, target, k) <==> target <= Frontier(s, k)
  {
    if CanReachWithin(s, target, k) {
      var p :| Route(s, p, target) && |p| - 1 <= k;
      RouteStaysWithinFrontier(s, p, target);
      FrontierMonotone(s, |p| - 1, k);
    }
    if target <= Frontier(s, k) {
      var p := FrontierIsReachable(s, k, target);
    }
  }

  /** If no index up to `m` can hop past `m`, no route gets past `m`. */
  lemma {:induction false} Barrier(s: seq<int>, m: nat, p: seq<int>, target: int)
    requires m < |s| && Furthest(s, m + 1) <= m
    requires Route(s, p, target)
    ensures target <= m
    decreases |p|
  {
    if |p| > 1 {
      var q, last := p[..|p| - 1], p[|p| - 2];
      assert Hop(s, p[|p| - 2], p[|p| - 1]);
      assert forall i :: 0 <= i < |q| - 1 ==> Hop(s, q[i], q[i + 1]) by {
        assert forall i :: 0 <= i < |q| - 1 ==> Hop(s, p[i], p[i + 1]);
      }
      Barrier(s, m, q, last);
      FurthestMonotone(s, last, m + 1);
    }
  }

  lemma BarrierBlocks(s: seq<int>, m: nat, target: int)
    requires m < target < |s| && Furthest(s, m + 1) <= m
    ensures !CanReach(s, target)
  {
    forall p | Route(s, p, target) ensures false {
      Barrier(s, m, p, target);
    }
  }

  lemma StartIsReachable(s: seq<int>)
    requires |s| > 0
    ensures CanReach(s, 0)
  {
    assert Route(s, [0], 0);
  }

  /** One more index `i` of the scan: everything up to the new bound stays reachable. */
  lemma ExtendReach(s: seq<int>, i: nat, bound: int)
    requires i < |s| && i <= bound
    requires forall j :: 0 <= j <= bound && j < |s| ==> CanReach(s, j)
    ensures forall j :: 0 <= j <= Max(bound, i + s[i]) && j < |s| ==> CanReach(s, j)
  {
    forall j | bound < j <= i + s[i] && j < |s| ensures CanReach(s, j) {
      assert CanReach(s, i);
      var q :| Route(s, q, i);
      assert Hop(s, i, j);
      assert forall k :: 0 <= k < |q| - 1 ==> Hop(s, q[k], q[k + 1]);
      assert Route(s, q + [j], j);
    }
  }

  /** `canJump1` (lines 163-178).  On the empty array it answers false. */
  method CanJump1(s: seq<int>) returns (r: bool)
    ensures |s| > 0 ==> (r <==> CanReach(s, |s| - 1))
    ensures |s| == 0 ==> !r
  {
    var n := |s|;
    var currentMaxPosition := 0;
    if n > 0 {
      StartIsReachable(s);
    }
    if n == 1 {
      return true;
    }
    var i := 0;
    while i < n
      invariant 0 <= i <= n
      invariant i <= currentMaxPosition && currentMaxPosition == Furthest(s, i)
      invariant i < n ==> currentMaxPosition < n - 1
      invariant i == n ==> n == 0
      invariant forall j :: 0 <= j <= currentMaxPosition && j < n ==> CanReach(s, j)
    {
      ExtendReach(s, i, currentMaxPosition);
      if s[i] > 0 {
        if i + s[i] + 1 >= n {
          return true;
        } else {
          currentMaxPosition := Max(i + s[i], currentMaxPosition);
        }
      } else if i >= currentMaxPosition {
        BarrierBlocks(s, i, n - 1);
        return false;
      }
      i := i + 1;
    }
    return false;
  }

  /** `canJump2` (lines 180-189).  On the empty array it answers true. */
  method CanJump2(s: seq<int>) returns (r: bool)
    ensures |s| > 0 ==> (r <==> CanReach(s, |s| - 1))
    ensures |s| == 0 ==> r
  {
    var n := |s|;
    var currentMaxPosition := 0;
    if n > 0 {
      StartIsReachable(s);
    }
    var i := 0;
    while i < n
      invariant 0 <= i <= n
      invariant i <= currentMaxPosition + 1 && currentMaxPosition == Furthest(s, i) && currentMaxPosition >= 0
      invariant 0 < i ==> currentMaxPosition < n - 1
      invariant forall j :: 0 <= j <= currentMaxPosition && j < n ==> CanReach(s, j)
    {
      if i > currentMaxPosition {
        BarrierBlocks(s, i - 1, n - 1);
        return false;
      }
      ExtendReach(s, i, currentMaxPosition);
      currentMaxPosition := Max(currentMaxPosition, i + s[i]);
      if currentMaxPosition >= n - 1 {
        return true;
      }
      i := i + 1;
    }
    return true;
  }

  /**
   `jump` (lines 191-204).  Whenever the last index is reachable at all, the result is the
   number of hops of a shortest route to it.
   */
  method Jump(s: seq<int>) returns (steps: nat)
    ensures |s| == 0 ==> steps == 0
    ensures |s| > 0 && CanReach(s, |s| - 1) ==>
              && (exists p :: Route(s, p, |s| - 1) && |p| - 1 == steps)
              && (forall p :: Route(s, p, |s| - 1) ==> |p| - 1 >= steps)
  {
    steps := 0;
    var currentMaxPosition, maxPosition := 0, 0;
    var size := |s|;
    ghost var reachable := size > 0 && CanReach(s, size - 1);
    var i := 0;
    while i < size - 1
      invariant 0 <= i && (size > 0 ==> i <= size - 1) && (size == 0 ==> i == 0)
      invariant maxPosition == Furthest(s, i)
      invariant currentMaxPosition == Frontier(s, steps)
      invariant reachable ==> i <= currentMaxPosition
      invariant if steps == 0 then i == 0 || !reachable else Frontier(s, steps - 1) < i
      invariant size == 0 ==> steps == 0
    {
      maxPosition := Max(maxPosition, i + s[i]);
      if i == currentMaxPosition {
        steps := steps + 1;
        currentMaxPosition := maxPosition;
        if currentMaxPosition <= i {
          BarrierBlocks(s, i, size - 1);
        }
      }
      i := i + 1;
    }
    if reachable {
      var p := FrontierIsReachable(s, steps, size - 1);
      forall q | Route(s, q, size - 1) ensures |q| - 1 >= steps {
        RouteStaysWithinFrontier(s, q, size - 1);
        if |q| - 1 < steps {
          FrontierMonotone(s, |q| - 1, steps - 1);
        }
      }
      assert |p| - 1 == steps;
    }
  }
}
