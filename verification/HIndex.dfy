/**
 The h-index, `h_index` of data_structure/408/program.cpp: sort in descending order, then scan.
 */
module HIndex {

  ghost predicate Descending(s: seq<int>) {
    forall i, j :: 0 <= i < j < |s| ==> s[i] >= s[j]
  }

  /** How many entries are at least `v`. */
  ghost function AtLeast(s: seq<int>, v: int): nat {
    if s == [] then 0 else AtLeast(s[..|s| - 1], v) + (if s[|s| - 1] >= v then 1 else 0)
  }

  lemma {:induction false} AtLeastCounts(s: seq<int>, v: int)
    ensures AtLeast(s, v) == |set i | 0 <= i < |s| && s[i] >= v|
  {
    var a := set i | 0 <= i < |s| && s[i] >= v;
    if s == [] {
      assert a == {};
    } else {
      var t := s[..|s| - 1];
      AtLeastCounts(t, v);
      var b := set i | 0 <= i < |t| && t[i] >= v;
      assert a == if s[|s| - 1] >= v then b + {|s| - 1} else b;
    }
  }

  function Insert(s: seq<int>, x: int): (r: seq<int>)
    ensures |r| == |s| + 1
  {
    if s == [] || s[|s| - 1] >= x then s + [x] else Insert(s[..|s| - 1], x) + [s[|s| - 1]]
  }

  /** Stands in for `sort` with `greater<int>`. */
  function SortedDescending(s: seq<int>): (r: seq<int>)
    ensures |r| == |s|
  {
    if s == [] then [] else Insert(SortedDescending(s[..|s| - 1]), s[|s| - 1])
  }

  lemma {:induction false} InsertIsPermutation(s: seq<int>, x: int)
    ensures multiset(Insert(s, x)) == multiset(s) + multiset{x}
  {
    if s != [] && s[|s| - 1] < x {
      InsertIsPermutation(s[..|s| - 1], x);
      assert s == s[..|s| - 1] + [s[|s| - 1]];
    }
  }

  lemma {:induction false} InsertKeepsOrder(s: seq<int>, x: int)
    requires Descending(s)
    ensures Descending(Insert(s, x))
    ensures forall i :: 0 <= i <= |s| ==> Insert(s, x)[i] == x || Insert(s, x)[i] in s
  {
    if s != [] && s[|s| - 1] < x {
      var t, last := s[..|s| - 1], s[|s| - 1];
      InsertKeepsOrder(t, x);
      assert forall y :: y in t ==> y >= last;
    }
  }

  lemma {:induction false} SortIsPermutation(s: seq<int>)
    ensures Descending(SortedDescending(s))
    ensures multiset(SortedDescending(s)) == multiset(s)
  {
    if s != [] {
      var t, x := s[..|s| - 1], s[|s| - 1];
      SortIsPermutation(t);
      InsertIsPermutation(SortedDescending(t), x);
      InsertKeepsOrder(SortedDescending(t), x);
      assert s == t + [x];
    }
  }

  lemma {:induction false} InsertCounts(s: seq<int>, x: int, v: int)
    ensures AtLeast(Insert(s, x), v) == AtLeast(s, v) + (if x >= v then 1 else 0)
  {
    if s == [] || s[|s| - 1] >= x {
      assert (s + [x])[..|s|] == s;
    } else {
      var t, r := s[..|s| - 1], Insert(s, x);
      InsertCounts(t, x, v);
      assert r[..|r| - 1] == Insert(t, x);
    }
  }

  lemma {:induction false} SortCounts(s: seq<int>, v: int)
    ensures AtLeast(SortedDescending(s), v) == AtLeast(s, v)
  {
    if s != [] {
      SortCounts(s[..|s| - 1], v);
      InsertCounts(SortedDescending(s[..|s| - 1]), s[|s| - 1], v);
    }
  }

  /** In a descending sequence, entry k decides on which side of k the count lies. */
  lemma {:induction false} CountBounds(s: seq<int>, v: int, k: nat)
    requires Descending(s) && k <= |s|
    ensures k > 0 && s[k - 1] >= v ==> AtLeast(s, v) >= k
    ensures k < |s| && s[k] < v ==> AtLeast(s, v) <= k
    ensures AtLeast(s, v) <= |s|
  {
    if s != [] {
      CountBounds(s[..|s| - 1], v, if k < |s| then k else k - 1);
    }
  }

  /** `h` papers with at least `h` citations each, and no greater number has that. */
  ghost predicate IsHIndex(s: seq<int>, h: nat) {
    AtLeast(s, h) >= h && forall g :: g > h ==> AtLeast(s, g) < g
  }

  lemma HIndexOfSorted(s: seq<int>, h: nat)
    requires Descending(s) && h <= |s|
    requires h > 0 ==> s[h - 1] >= h
    requires h < |s| ==> s[h] < h + 1
    ensures IsHIndex(s, h)
  {
    CountBounds(s, h, h);
    forall g | g > h ensures AtLeast(s, g) < g {
      CountBounds(s, g, h);
    }
  }

  method SortDescending(s: array<int>)
    modifies s
    ensures s[..] == SortedDescending(old(s[..]))
  {
    var sorted := SortedDescending(s[..]);
    forall i | 0 <= i < s.Length {
      s[i] := sorted[i];
    }
  }

  /**
   `h_index` (lines 206-217).  The result is the h-index of the array as it was passed in; the
   array is left sorted in descending order.
   */
  method ComputeHIndex(s: array<int>) returns (h: nat)
    modifies s
    ensures IsHIndex(old(s[..]), h)
    ensures Descending(s[..]) && multiset(s[..]) == multiset(old(s[..]))
  {
    ghost var was := s[..];
    SortDescending(s);
    SortIsPermutation(was);
    h := 0;
    var i := 0;
    while i < s.Length
      invariant 0 <= i <= s.Length && h == i
      invariant h > 0 ==> s[h - 1] >= h
    {
      if s[i] >= h + 1 {
        h := i + 1;
      } else {
        break;
      }
      i := i + 1;
    }
    HIndexOfSorted(s[..], h);
    forall v ensures AtLeast(s[..], v) == AtLeast(was, v) {
      SortCounts(was, v);
    }
  }
}
