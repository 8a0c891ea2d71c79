/**
 `productExceptSelf` of data_structure/408/program.cpp: one pass of prefix products, one of suffix
 products, no division.
 */
module Products {

  function Product(s: seq<int>): int {
    if s == [] then 1 else Product(s[..|s| - 1]) * s[|s| - 1]
  }

  function Abs(x: int): nat { if x < 0 then -x else x }

  function Factor(x: int): (f: nat)
    ensures f >= 1 && f >= Abs(x)
  {
    if Abs(x) > 1 then Abs(x) else 1
  }

  function Factors(s: seq<int>): (f: seq<int>)
    ensures |f| == |s|
  {
    seq(|s|, i requires 0 <= i < |s| => Factor(s[i]))
  }

  /** The product of max(1, |s[k]|) over all k: no partial product can exceed it. */
  function Magnitude(s: seq<int>): int {
    Product(Factors(s))
  }

  predicate FitsInt32(x: int) { -0x8000_0000 <= x <= 0x7fff_ffff }

  // ----- arithmetic

  lemma MulAssociative(x: int, y: int, z: int)
    ensures (x * y) * z == x * (y * z)
  {
  }

  lemma MulCommutative(x: int, y: int)
    ensures x * y == y * x
  {
  }

  lemma MulAtLeast(x: int, y: int)
    requires x >= 1 && y >= 1
    ensures x * y >= x && x * y >= y
  {
  }

  lemma AbsMul(a: int, b: int, m: nat, n: nat)
    requires Abs(a) <= m && Abs(b) <= n
    ensures Abs(a * b) <= m * n
  {
    assert Abs(a * b) == Abs(a) * Abs(b);
    assert Abs(a) * Abs(b) <= m * Abs(b) <= m * n;
  }

  // ----- products of parts

  lemma {:induction false} ProductConcat(s: seq<int>, t: seq<int>)
    ensures Product(s + t) == Product(s) * Product(t)
  {
    if t == [] {
      assert s + t == s;
    } else {
      var t', x := t[..|t| - 1], t[|t| - 1];
      assert (s + t)[..|s + t| - 1] == s + t';
      ProductConcat(s, t');
      MulAssociative(Product(s), Product(t'), x);
    }
  }

  lemma ProductOfOne(x: int)
    ensures Product([x]) == x && Product([]) == 1
  {
    assert [x][..0] == [];
  }

  lemma MagnitudeConcat(s: seq<int>, t: seq<int>)
    ensures Magnitude(s + t) == Magnitude(s) * Magnitude(t)
  {
    assert Factors(s + t) == Factors(s) + Factors(t);
    ProductConcat(Factors(s), Factors(t));
  }

  lemma {:induction false} ProductWithinMagnitude(s: seq<int>)
    ensures Magnitude(s) >= 1
    ensures Abs(Product(s)) <= Magnitude(s)
  {
    if s != [] {
      var t, x := s[..|s| - 1], s[|s| - 1];
      ProductWithinMagnitude(t);
      assert Factors(s)[..|s| - 1] == Factors(t);
      AbsMul(Product(t), x, Magnitude(t), Factor(x));
      MulAtLeast(Magnitude(t), Factor(x));
    }
  }

  /** A prefix product, a suffix product and a product of both stay within the magnitude of the whole. */
  lemma PartialProductsFit(s: seq<int>, i: nat, j: nat)
    requires i <= j <= |s|
    ensures Abs(Product(s[..i])) <= Magnitude(s)
    ensures Abs(Product(s[j..])) <= Magnitude(s)
    ensures Abs(Product(s[..i]) * Product(s[j..])) <= Magnitude(s)
  {
    var a, b, c := s[..i], s[i..j], s[j..];
    ProductWithinMagnitude(a);
    ProductWithinMagnitude(b);
    ProductWithinMagnitude(c);
    AbsMul(Product(a), Product(c), Magnitude(a), Magnitude(c));
    assert s == (a + b) + c;
    MagnitudeConcat(a + b, c);
    MagnitudeConcat(a, b);
    Cover(Magnitude(a), Magnitude(b), Magnitude(c));
  }

  lemma Cover(x: int, y: int, z: int)
    requires x >= 1 && y >= 1 && z >= 1
    ensures x * z <= (x * y) * z && x <= (x * y) * z && z <= (x * y) * z
  {
    MulAtLeast(x, z);
    MulAtLeast(y, x * z);
    MulCommutative(x, y);
    MulAssociative(y, x, z);
  }

  /** The product of all elements other than the one at index i. */
  function ProductExcept(s: seq<int>, i: nat): int
    requires i < |s|
  {
    Product(s[..i] + s[i + 1..])
  }

  lemma SuffixStep(s: seq<int>, i: nat)
    requires i < |s|
    ensures Product(s[i..]) == Product(s[i + 1..]) * s[i]
  {
    assert s[i..] == [s[i]] + s[i + 1..];
    ProductConcat([s[i]], s[i + 1..]);
    assert [s[i]][..0] == [];
    MulCommutative(s[i], Product(s[i + 1..]));
  }

  lemma ExceptSplits(s: seq<int>, i: nat)
    requires i < |s|
    ensures ProductExcept(s, i) == Product(s[i + 1..]) * Product(s[..i])
  {
    ProductConcat(s[..i], s[i + 1..]);
    MulCommutative(Product(s[..i]), Product(s[i + 1..]));
  }

  /** Putting the element back gives the total product. */
  lemma ExceptTimesSelf(s: seq<int>, i: nat)
    requires i < |s|
    ensures ProductExcept(s, i) * s[i] == Product(s)
  {
    assert s == s[..i] + s[i..];
    ProductConcat(s[..i], s[i..]);
    ProductConcat(s[..i], s[i + 1..]);
    SuffixStep(s, i);
    MulAssociative(Product(s[..i]), Product(s[i + 1..]), s[i]);
  }

  /** `front` lists the products that the first pass evaluates at the first `n` indices: each prefix product. */
  ghost predicate FirstPass(s: seq<int>, front: seq<int>, n: nat) {
    |front| == n <= |s| && forall p :: 0 <= p < n ==> front[p] == Product(s[..p + 1])
  }

  /** `back` lists the products that the second pass evaluates at the last `n` indices, from the end: for
   each index the product of all other elements and the suffix product. */
  ghost predicate SecondPass(s: seq<int>, back: seq<int>, n: nat) {
    && |back| == 2 * n && n <= |s|
    && (forall p :: 0 <= p < n ==> back[2 * p] == ProductExcept(s, |s| - 1 - p))
    && (forall p :: 0 <= p < n ==> back[2 * p + 1] == Product(s[|s| - 1 - p..]))
  }

  lemma FirstPassFits(s: seq<int>, front: seq<int>)
    requires FirstPass(s, front, |s|) && FitsInt32(Magnitude(s))
    ensures forall p :: 0 <= p < |front| ==> FitsInt32(front[p])
  {
    forall p | 0 <= p < |front| ensures FitsInt32(front[p]) {
      FrontStep(s, p);
    }
  }

  lemma SecondPassFits(s: seq<int>, back: seq<int>)
    requires SecondPass(s, back, |s|) && FitsInt32(Magnitude(s))
    ensures forall p :: 0 <= p < |back| ==> FitsInt32(back[p])
  {
    forall p | 0 <= p < |back| ensures FitsInt32(back[p]) {
      TailStep(s, |s| - 1 - p / 2);
      assert p == 2 * (p / 2) || p == 2 * (p / 2) + 1;
    }
  }

  /** What the second pass puts into `back` at index i, from the products after and before it. */
  lemma SecondPassStep(s: seq<int>, back: seq<int>, i: nat, after: int, before: int)
    requires i < |s| && SecondPass(s, back, |s| - 1 - i)
    requires after == Product(s[i + 1..]) && before == Product(s[..i])
    ensures after * before == ProductExcept(s, i) && after * s[i] == Product(s[i..])
    ensures SecondPass(s, back + [after * before, after * s[i]], |s| - i)
  {
    TailStep(s, i);
    var n, longer := |s| - 1 - i, back + [after * before, after * s[i]];
    forall p | 0 <= p < n + 1
      ensures longer[2 * p] == ProductExcept(s, |s| - 1 - p) && longer[2 * p + 1] == Product(s[|s| - 1 - p..])
    {
      if p < n {
        assert longer[2 * p] == back[2 * p] && longer[2 * p + 1] == back[2 * p + 1];
      }
    }
  }

  /** The first pass at index i. */
  lemma FrontStep(s: seq<int>, i: nat)
    requires i < |s|
    ensures Product(s[..i + 1]) == Product(s[..i]) * s[i]
    ensures Abs(Product(s[..i + 1])) <= Magnitude(s)
  {
    assert s[..i + 1][..i] == s[..i];
    PartialProductsFit(s, i + 1, |s|);
  }

  /** The second pass at index i. */
  lemma TailStep(s: seq<int>, i: nat)
    requires i < |s|
    ensures Product(s[i + 1..]) * Product(s[..i]) == ProductExcept(s, i)
    ensures Product(s[i + 1..]) * s[i] == Product(s[i..])
    ensures Abs(ProductExcept(s, i)) <= Magnitude(s) && Abs(Product(s[i..])) <= Magnitude(s)
  {
    ExceptSplits(s, i);
    SuffixStep(s, i);
    PartialProductsFit(s, i, i + 1);
    PartialProductsFit(s, i, i);
    MulCommutative(Product(s[..i]), Product(s[i + 1..]));
  }

  /** What the first pass puts into `front` at index i, `x` being the product of what comes before. */
  lemma FirstPassStep(s: seq<int>, front: seq<int>, i: nat, x: int)
    requires i < |s| && FirstPass(s, front, i) && x == Product(s[..i])
    ensures x * s[i] == Product(s[..i + 1])
    ensures FirstPass(s, front + [x * s[i]], i + 1)
  {
    FrontStep(s, i);
  }

  /**
   `productExceptSelf` (lines 219-234).  `front` and `back` are the products the two passes evaluate,
   in order: every prefix product, then for each index from the last the product of the others and the
   suffix product.  When the magnitude of the input fits a 32-bit int, so does each of them.
   */
  method ProductExceptSelf(s: seq<int>) returns (result: seq<int>, ghost front: seq<int>, ghost back: seq<int>)
    ensures |result| == |s|
    ensures forall i :: 0 <= i < |s| ==> result[i] == ProductExcept(s, i)
    ensures FirstPass(s, front, |s|) && SecondPass(s, back, |s|)
    ensures FitsInt32(Magnitude(s)) ==> forall p :: 0 <= p < |front| ==> FitsInt32(front[p])
    ensures FitsInt32(Magnitude(s)) ==> forall p :: 0 <= p < |back| ==> FitsInt32(back[p])
  {
    var frontResult, tailResult := 1, 1;
    var resultS := new int[|s|](_ => 1);
    front, back := [], [];
    var i := 0;
    while i < |s|
      invariant 0 <= i <= |s|
      invariant frontResult == Product(s[..i])
      invariant forall k :: 0 <= k < i ==> resultS[k] == Product(s[..k])
      invariant FirstPass(s, front, i) == true
    {
      FirstPassStep(s, front, i, frontResult);
      resultS[i] := frontResult;
      frontResult := frontResult * s[i];
      front := front + [frontResult];
      i := i + 1;
    }
    i := |s| - 1;
    assert s[|s|..] == [];
    while i >= 0
      invariant -1 <= i < |s|
      invariant tailResult == Product(s[i + 1..])
      invariant forall k :: 0 <= k <= i ==> resultS[k] == Product(s[..k])
      invariant forall k :: i < k < |s| ==> resultS[k] == ProductExcept(s, k)
      invariant SecondPass(s, back, |s| - 1 - i) == true
    {
      SecondPassStep(s, back, i, tailResult, resultS[i]);
      resultS[i] := tailResult * resultS[i];
      tailResult := tailResult * s[i];
      back := back + [resultS[i], tailResult];
      i := i - 1;
    }
    result := resultS[..];
    if FitsInt32(Magnitude(s)) {
      FirstPassFits(s, front);
      SecondPassFits(s, back);
    }
  }
}
