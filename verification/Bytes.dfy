/** Byte strings as the chat programs handle them. */
module Bytes {
  import opened Sequences

  type byte = b: int | 0 <= b < 256

  type bytes = seq<byte>

  const NUL: byte := 0
  const LF: byte := 10
  const CR: byte := 13
  const SPACE: byte := 32
  const SLASH: byte := 47
  const ZERO: byte := 48
  const GREATER: byte := 62
  const DEL: byte := 127

  /** The bytes of an ASCII literal. */
  function Ascii(s: string): (r: bytes)
    ensures |r| == |s|
    ensures forall i :: 0 <= i < |s| && s[i] < 128 as char ==> r[i] == s[i] as int
  {
    seq(|s|, i requires 0 <= i < |s| => (s[i] as int) % 256)
  }

  function Take(s: bytes, n: nat): bytes {
    s[..Min(n, |s|)]
  }

  /** The index of the first `c` in `s`, or |s|. */
  function Find(s: bytes, c: byte): (i: nat)
    ensures i <= |s|
    ensures c !in s[..i]
    ensures i < |s| ==> s[i] == c
  {
    if s == [] then 0
    else if s[0] == c then 0
    else FindTail(s, c); 1 + Find(s[1..], c)
  }

  lemma FindTail(s: bytes, c: byte)
    requires s != []
    ensures forall k :: 0 <= k < |s| ==> s[..k + 1] == [s[0]] + s[1..][..k]
  {
  }

  lemma FindInside(s: bytes, c: byte)
    requires c in s
    ensures Find(s, c) < |s|
  {
    assert s[..|s|] == s;
  }

  /** The part of `s` before the first `c`. */
  function Before(s: bytes, c: byte): (r: bytes)
    ensures c !in r
    ensures r <= s
  {
    s[..Find(s, c)]
  }

  lemma FindIs(s: bytes, c: byte, i: nat)
    requires i <= |s| && c !in s[..i] && (i < |s| ==> s[i] == c)
    ensures Find(s, c) == i
  {
    var f := Find(s, c);
    assert forall k :: 0 <= k < i ==> s[k] in s[..i];
    assert forall k :: 0 <= k < f ==> s[k] in s[..f];
  }

  lemma BeforeAbsent(s: bytes, c: byte)
    requires c !in s
    ensures Before(s, c) == s
  {
    FindIs(s, c, |s|);
  }

  /** The decimal digits of `n`, as `%d` prints them. */
  function Decimal(n: nat): (r: bytes)
    ensures r != [] && forall i :: 0 <= i < |r| ==> ZERO <= r[i] < ZERO + 10
  {
    if n < 10 then [ZERO + n] else Decimal(n / 10) + [ZERO + n % 10]
  }

  /** One digit for each power of ten, the most significant first and no zero in front. */
  lemma DecimalDigits(n: nat, d: nat)
    requires d < 10
    ensures Decimal(d) == [48 + d]
    ensures n > 0 ==> Decimal(10 * n + d) == Decimal(n) + [48 + d]
  {
  }

  function DecimalValue(digits: bytes): int {
    if digits == [] then 0 else 10 * DecimalValue(digits[..|digits| - 1]) + digits[|digits| - 1] - ZERO
  }

  lemma {:induction false} DecimalRoundTrip(n: nat)
    ensures DecimalValue(Decimal(n)) == n
  {
    var d := Decimal(n);
    if n >= 10 {
      DecimalRoundTrip(n / 10);
      assert d[..|d| - 1] == Decimal(n / 10);
    } else {
      assert d[..0] == [];
    }
  }
}
