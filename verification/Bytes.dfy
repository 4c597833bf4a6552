// Bytes and big-endian numbers.
module Bytes {
  type byte = x: int | 0 <= x < 256

  const TWO32 := 0x1_0000_0000
  const TWO64 := 0x1_0000_0000_0000_0000

  function ZeroBytes(n: nat): (z: seq<byte>)
    ensures |z| == n && forall i :: 0 <= i < n ==> z[i] == 0
  {
    seq(n, _ => 0)
  }

  /** The `n` low bytes of `v`, most significant first. */
  function BigEndian(v: nat, n: nat): (r: seq<byte>)
    ensures |r| == n
    decreases n
  {
    if n == 0 then [] else BigEndian(v / 256, n - 1) + [v % 256]
  }

  /** The number `n` big-endian bytes spell. */
  function FromBigEndian(s: seq<byte>): nat {
    if s == [] then 0 else FromBigEndian(s[..|s| - 1]) * 256 + s[|s| - 1]
  }

  function Pow256(n: nat): (r: nat)
    ensures r >= 1
  {
    if n == 0 then 1 else 256 * Pow256(n - 1)
  }

  lemma {:induction false} BigEndianRoundTrip(v: nat, n: nat)
    requires v < Pow256(n)
    ensures FromBigEndian(BigEndian(v, n)) == v
    decreases n
  {
    if n > 0 {
      BigEndianRoundTrip(v / 256, n - 1);
      var r := BigEndian(v, n);
      assert r[..|r| - 1] == BigEndian(v / 256, n - 1);
    }
  }

  lemma FourBytes(v: nat)
    ensures BigEndian(v, 4) == [v / 256 / 256 / 256 % 256, v / 256 / 256 % 256, v / 256 % 256, v % 256]
  {
    assert BigEndian(v / 256 / 256 / 256, 1) == BigEndian(v / 256 / 256 / 256 / 256, 0) + [v / 256 / 256 / 256 % 256];
    assert BigEndian(v / 256 / 256, 2) == BigEndian(v / 256 / 256 / 256, 1) + [v / 256 / 256 % 256];
    assert BigEndian(v / 256, 3) == BigEndian(v / 256 / 256, 2) + [v / 256 % 256];
  }

  /** Byte `i` is the number shifted right and masked. */
  lemma {:induction false} BigEndianAt(v: nat, n: nat, i: nat)
    requires i < n
    ensures BigEndian(v, n)[i] == v / Pow256(n - 1 - i) % 256
    decreases n
  {
    if i < n - 1 {
      BigEndianAt(v / 256, n - 1, i);
      DivideTwice(v, Pow256(n - 2 - i));
    }
  }

  lemma DivideTwice(v: nat, d: nat)
    requires d > 0
    ensures v / 256 / d == v / (256 * d)
  {
    var q, r := v / 256 / d, v / 256 % d;
    assert v / 256 == q * d + r;
    assert v == 256 * (q * d + r) + v % 256;
    assert v == q * (256 * d) + (256 * r + v % 256) by {
      assert 256 * (q * d) == q * (256 * d);
    }
    Quotient(v, 256 * d, q, 256 * r + v % 256);
  }

  lemma Quotient(v: nat, d: nat, q: nat, r: nat)
    requires d > 0 && r < d && v == q * d + r
    ensures v / d == q
  {
    assert v == v / d * d + v % d;
    assert (v / d - q) * d == v / d * d - q * d;
    MultipleIsFar(v / d - q, d);
  }

  lemma MultipleIsFar(k: int, d: nat)
    ensures k >= 1 ==> k * d >= d
    ensures k <= -1 ==> k * d + d <= 0
  {
    if k >= 1 {
      assert (k - 1) * d >= 0;
    } else if k <= -1 {
      assert (-k - 1) * d >= 0;
    }
  }

  lemma Split64(v: nat, q: nat, r: nat)
    requires v == q * TWO64 + r && r < TWO64
    ensures v % TWO64 == r
  {}

  lemma Split32(v: nat, q: nat, r: nat)
    requires v == q * TWO32 + r && r < TWO32
    ensures v % TWO32 == r && v / TWO32 == q
  {}
}
