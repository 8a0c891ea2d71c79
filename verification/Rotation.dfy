/**
 Right rotation of a vector, `rotate` of data_structure/408/program.cpp.

 The source computes the target slot as `(i + k) % s1.size()`.  There `i + k` is a 32-bit int, whose
 overflow is undefined, and `s1.size()` a 64-bit unsigned, so a negative sum first wraps to
 2^64 + i + k.
 */
module Rotation {
  import opened Wrappers

  const TWO64: int := 0x1_0000_0000_0000_0000
  const INT_MAX: int := 0x7fff_ffff

  predicate IsInt32(k: int) { -INT_MAX - 1 <= k <= INT_MAX }

  /** The slot the source computes for index `i`; none if the sum overflows. */
  function Slot(i: nat, k: int, n: nat): (slot: Option<int>)
    requires n > 0
    ensures slot.Some? ==> 0 <= slot.value < n
  {
    if IsInt32(i + k) then Some(((i + k) % TWO64) % n) else None
  }

  /** Where a rotation by `k` takes index `i`, and the index it brings to `j`. */
  function Target(i: int, k: int, n: nat): (j: int)
    requires n > 0
    ensures 0 <= j < n
  {
    (i + k) % n
  }

  function Origin(j: int, k: int, n: nat): (i: int)
    requires n > 0
    ensures 0 <= i < n
  {
    (j - k) % n
  }

  /** `s` with index i moved to (i + k) mod n. */
  function Rotated(s: seq<int>, k: int): (r: seq<int>)
    ensures |r| == |s|
  {
    seq(|s|, j requires 0 <= j < |s| => s[Origin(j, k, |s|)])
  }

  /**
   A zeroed vector after writing the first `m` elements of `s` to their slots, in order; nothing if the
   computation of a slot overflows.
   */
  function Scattered(s: seq<int>, k: int, m: nat): (r: Option<seq<int>>)
    requires m <= |s|
    ensures r.Some? ==> |r.value| == |s|
  {
    if m == 0 then Some(seq(|s|, i => 0))
    else match Scattered(s, k, m - 1)
      case None => None
      case Some(r) =>
        match Slot(m - 1, k, |s|)
        case None => None
        case Some(slot) => Some(r[slot := s[m - 1]])
  }

  // ----- modular arithmetic

  lemma ModUnique(x: int, q: int, r: int, n: int)
    requires n > 0 && 0 <= r < n && x == q * n + r
    ensures x % n == r
  {
    var d := x / n - q;
    assert d * n == r - x % n;
    assert d >= 1 ==> d * n >= n;
    assert d <= -1 ==> d * n <= -n;
  }

  lemma ModShift(x: int, a: int, n: int)
    requires n > 0
    ensures (x % n + a) % n == (x + a) % n
  {
    var y := x % n + a;
    assert x == (x / n) * n + x % n;
    assert y == (y / n) * n + y % n;
    assert x + a == (x / n + y / n) * n + y % n;
    ModUnique(x + a, x / n + y / n, y % n, n);
  }

  lemma Unshift(i: nat, k: int, n: nat)
    requires i < n
    ensures Origin(Target(i, k, n), k, n) == i
  {
    ModShift(i + k, -k, n);
    ModUnique(i, 0, i, n);
  }

  lemma TargetOfOrigin(j: nat, k: int, n: nat)
    requires j < n
    ensures Target(Origin(j, k, n), k, n) == j
  {
    Unshift(j, -k, n);
  }

  /** Wrapping through 2^64 is harmless exactly when n divides 2^64. */
  lemma WrapModulo(x: int, n: int)
    requires n > 0
    ensures (TWO64 + x) % n == x % n <==> TWO64 % n == 0
  {
    ModShift(TWO64, x, n);
    if (TWO64 + x) % n == x % n {
      ModShift(TWO64 + x, -x, n);
      ModShift(x, -x, n);
      ModUnique(0, 0, 0, n);
    }
  }

  lemma SlotOf(i: nat, k: int, n: nat)
    requires i < n && IsInt32(i + k)
    ensures Slot(i, k, n) == Some(if i + k >= 0 then (i + k) % n else (TWO64 + (i + k)) % n)
  {
    if i + k >= 0 {
      ModUnique(i + k, 0, i + k, TWO64);
    } else {
      ModUnique(i + k, -1, TWO64 + (i + k), TWO64);
    }
  }

  // ----- the method and when it rotates

  /** No sum overflows if the last does not. */
  lemma {:induction false} ScatteredIsDefined(s: seq<int>, k: int, m: nat)
    requires m <= |s| && IsInt32(k) && |s| - 1 + k <= INT_MAX
    ensures Scattered(s, k, m).Some?
  {
    if m > 0 {
      ScatteredIsDefined(s, k, m - 1);
    }
  }

  /** `rotate` of a vector of length `n` by `k` neither overflows nor sends an index to a wrong slot. */
  predicate Rotates(n: nat, k: int) {
    n == 0 || if k >= 0 then n - 1 + k <= INT_MAX else TWO64 % n == 0
  }

  /**
   `rotate` (lines 109-115): builds a second vector slot by slot and copies it back.  `s1` has at
   most 2^31 - 1 elements because the loop counter is an int, and the greatest sum must be an int.
   */
  method Rotate(s1: array<int>, k: int)
    requires s1.Length <= INT_MAX && IsInt32(k) && s1.Length - 1 + k <= INT_MAX
    modifies s1
    ensures Some(s1[..]) == Scattered(old(s1[..]), k, s1.Length)
    ensures Rotates(s1.Length, k) ==> s1[..] == Rotated(old(s1[..]), k)
  {
    var s2 := new int[s1.Length](_ => 0);
    ghost var was := s1[..];
    assert s2[..] == Scattered(was, k, 0).value;
    for i := 0 to s1.Length
      invariant s1[..] == was
      invariant Some(s2[..]) == Scattered(was, k, i)
    {
      SlotOf(i, k, s1.Length);
      s2[((i + k) % TWO64) % s1.Length] := s1[i];
    }
    forall i | 0 <= i < s1.Length {
      s1[i] := s2[i];
    }
    assert s1[..] == s2[..] == Scattered(was, k, s1.Length).value;
    if Rotates(s1.Length, k) {
      ScatteredIsRotated(was, k);
    }
  }

  /** When every slot leads back to its own index, no write is overwritten. */
  lemma {:induction false} ScatteredKeepsAll(s: seq<int>, k: int, m: nat, i: nat)
    requires i < m <= |s| && Scattered(s, k, m).Some?
    requires forall p :: 0 <= p < |s| ==> Slot(p, k, |s|).Some? && Origin(Slot(p, k, |s|).value, k, |s|) == p
    ensures Scattered(s, k, m).value[Slot(i, k, |s|).value] == s[i]
  {
    if i < m - 1 {
      ScatteredKeepsAll(s, k, m - 1, i);
      assert Origin(Slot(m - 1, k, |s|).value, k, |s|) == m - 1;
    }
  }

  lemma SlotIsTarget(i: nat, k: int, n: nat)
    requires i < n <= INT_MAX && IsInt32(k) && Rotates(n, k)
    ensures Slot(i, k, n) == Some(Target(i, k, n)) && Origin(Target(i, k, n), k, n) == i
  {
    SlotOf(i, k, n);
    WrapModulo(i + k, n);
    Unshift(i, k, n);
  }

  lemma ScatteredAt(s: seq<int>, k: int, j: nat)
    requires j < |s| <= INT_MAX && IsInt32(k) && Rotates(|s|, k) && Scattered(s, k, |s|).Some?
    ensures Scattered(s, k, |s|).value[j] == Rotated(s, k)[j]
  {
    var n := |s|;
    var i := Origin(j, k, n);
    forall p | 0 <= p < n ensures Slot(p, k, n).Some? && Origin(Slot(p, k, n).value, k, n) == p {
      SlotIsTarget(p, k, n);
    }
    ScatteredKeepsAll(s, k, n, i);
    SlotIsTarget(i, k, n);
    TargetOfOrigin(j, k, n);
  }

  lemma ScatteredIsRotated(s: seq<int>, k: int)
    requires |s| <= INT_MAX && IsInt32(k) && Rotates(|s|, k)
    ensures Scattered(s, k, |s|) == Some(Rotated(s, k))
  {
    if s != [] {
      ScatteredIsDefined(s, k, |s|);
      forall j | 0 <= j < |s| ensures Scattered(s, k, |s|).value[j] == Rotated(s, k)[j] {
        ScatteredAt(s, k, j);
      }
      assert Scattered(s, k, |s|).value == Rotated(s, k);
    }
  }

  lemma {:induction false} NeverWritten(s: seq<int>, k: int, m: nat, p: nat, v: int)
    requires m <= |s| && p < |s| && v != 0
    requires forall i :: 0 <= i < m ==> Slot(i, k, |s|) != Some(p) || s[i] != v
    ensures Scattered(s, k, m).Some? ==> Scattered(s, k, m).value[p] != v
  {
    if m > 0 {
      NeverWritten(s, k, m - 1, p, v);
    }
  }

  /** A negative `k` on a length that does not divide 2^64 loses element 0. */
  lemma NegativeShiftFails(n: nat, k: int) returns (s: seq<int>)
    requires 0 < n <= INT_MAX && IsInt32(k) && k < 0 && TWO64 % n != 0
    ensures |s| == n && Scattered(s, k, n) != Some(Rotated(s, k))
  {
    s := seq(n, i => i + 1);
    var p := k % n;
    SlotOf(0, k, n);
    WrapModulo(k, n);
    NeverWritten(s, k, n, p, 1);
    Unshift(0, k, n);
    assert Rotated(s, k)[p] == s[Origin(p, k, n)] == 1;
  }

  /** A sum that overflows at the last index leaves the result undefined. */
  lemma OverflowFails(s: seq<int>, k: int)
    requires s != [] && |s| - 1 + k > INT_MAX
    ensures Scattered(s, k, |s|) == None
  {
    assert Slot(|s| - 1, k, |s|) == None;
  }

  /**
   `rotate` rotates every vector of length n by k if and only if k is non-negative and n - 1 + k is an
   int, or k is negative and n divides 2^64.
   */
  lemma RotatesExactlyWhen(n: nat, k: int)
    requires 0 < n <= INT_MAX && IsInt32(k)
    ensures (forall s: seq<int> :: |s| == n ==> Scattered(s, k, n) == Some(Rotated(s, k))) <==>
              (k >= 0 && n - 1 + k <= INT_MAX) || (k < 0 && TWO64 % n == 0)
  {
    if Rotates(n, k) {
      forall s: seq<int> | |s| == n ensures Scattered(s, k, n) == Some(Rotated(s, k)) {
        ScatteredIsRotated(s, k);
      }
    } else if k >= 0 {
      var s := seq(n, i => 0);
      OverflowFails(s, k);
      assert Scattered(s, k, n) != Some(Rotated(s, k));
    } else {
      var s := NegativeShiftFails(n, k);
    }
  }

  // ----- rotation is a group action

  lemma RotatedMovesIndex(s: seq<int>, k: int, i: nat)
    requires i < |s|
    ensures Rotated(s, k)[(i + k) % |s|] == s[i]
  {
    Unshift(i, k, |s|);
  }

  lemma OriginTwice(j: int, a: int, b: int, n: nat)
    requires n > 0
    ensures Origin(Origin(j, b, n), a, n) == Origin(j, a + b, n)
  {
    ModShift(j - b, -a, n);
  }

  lemma RotatedTwice(s: seq<int>, a: int, b: int)
    ensures Rotated(Rotated(s, a), b) == Rotated(s, a + b)
  {
    forall j | 0 <= j < |s| ensures Rotated(Rotated(s, a), b)[j] == Rotated(s, a + b)[j] {
      OriginTwice(j, a, b, |s|);
    }
  }

  lemma FullTurn(j: nat, k: int, n: nat)
    requires j < n
    ensures Origin(j, k + (n - k % n), n) == j
  {
    var q := k / n;
    assert q * n == k - k % n;
    assert (-q - 1) * n == -(q * n) - n;
    ModUnique(j - (k + (n - k % n)), -q - 1, j, n);
  }

  lemma IdentityTurn(s: seq<int>, k: int)
    requires forall j :: 0 <= j < |s| ==> Origin(j, k, |s|) == j
    ensures Rotated(s, k) == s
  {
  }

  lemma RotatedBack(s: seq<int>, k: int)
    requires s != []
    ensures Rotated(Rotated(s, k), |s| - k % |s|) == s
  {
    var n := |s|;
    var turn := k + (n - k % n);
    RotatedTwice(s, k, n - k % n);
    forall j | 0 <= j < n ensures Origin(j, turn, n) == j {
      FullTurn(j, k, n);
    }
    IdentityTurn(s, turn);
  }

  lemma OriginSplit(j: nat, k: int, n: nat)
    requires j < n
    ensures Origin(j, k, n) == if j < k % n then j - k % n + n else j - k % n
  {
    var q, c := k / n, k % n;
    assert q * n == k - c;
    assert (-q) * n == -(q * n) && (-q - 1) * n == -(q * n) - n;
    if j < c {
      ModUnique(j - k, -q - 1, j - c + n, n);
    } else {
      ModUnique(j - k, -q, j - c, n);
    }
  }

  lemma RotatedIsPermutation(s: seq<int>, k: int)
    ensures multiset(Rotated(s, k)) == multiset(s)
  {
    if s != [] {
      var c := k % |s|;
      var r := s[|s| - c..] + s[..|s| - c];
      forall j | 0 <= j < |s| ensures Rotated(s, k)[j] == r[j] {
        OriginSplit(j, k, |s|);
      }
      assert Rotated(s, k) == r;
      assert s == s[..|s| - c] + s[|s| - c..];
    }
  }
}
