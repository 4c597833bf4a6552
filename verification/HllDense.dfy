// Registers of six bits packed four to three bytes.
module HllDense {
  import opened BitWords
  import opened Bytes

  const REGISTERS := 16384
  const DENSE_BYTES := 12288

  /** A register that starts at bit `fb` of a byte, read from it and the next. */
  function GetBits(b0: byte, b1: byte, fb: nat): (v: nat)
    requires fb in {0, 2, 4, 6}
    ensures v < 64
  {
    if fb == 0 then b0 % 64
    else if fb == 2 then b0 / 4
    else if fb == 4 then b0 / 16 + b1 % 4 * 16
    else b0 / 64 + b1 % 16 * 4
  }

  function SetFirst(b0: byte, fb: nat, v: nat): byte
    requires fb in {0, 2, 4, 6} && v < 64
  {
    if fb == 0 then b0 / 64 * 64 + v
    else if fb == 2 then b0 % 4 + v * 4
    else if fb == 4 then b0 % 16 + v % 16 * 16
    else b0 % 64 + v % 4 * 64
  }

  function SetSecond(b1: byte, fb: nat, v: nat): byte
    requires fb in {0, 2, 4, 6} && v < 64
  {
    if fb <= 2 then b1
    else if fb == 4 then b1 / 4 * 4 + v / 16
    else b1 / 16 * 16 + v / 4
  }

  // ---- The masks and shifts of the source

  /** A read: both bytes shifted into place, six bits of them kept. */
  function GetMasked(b0: bv16, b1: bv16, fb: nat): bv16
    requires fb in {0, 2, 4, 6}
  {
    ((b0 >> fb) | (b1 << (8 - fb))) & 63
  }

  /** A write: six bits of a byte, or what of them falls into it, cleared and set.
      The byte keeps eight bits of the result. */
  function SetMaskedFirst(b0: bv16, fb: nat, v: bv16): bv16
    requires fb in {0, 2, 4, 6}
  {
    ((b0 & !(63 << fb)) | (v << fb)) & 255
  }

  function SetMaskedSecond(b1: bv16, fb: nat, v: bv16): bv16
    requires fb in {0, 2, 4, 6}
  {
    ((b1 & !(63 >> (8 - fb))) | (v >> (8 - fb))) & 255
  }

  lemma GetWord4(b0: bv16, b1: bv16)
    requires b0 < 256 && b1 < 256
    ensures GetMasked(b0, b1, 4) < 256
    ensures GetMasked(b0, b1, 4) % 16 == b0 / 16 && GetMasked(b0, b1, 4) / 16 == b1 % 4
  {}

  lemma GetWord6(b0: bv16, b1: bv16)
    requires b0 < 256 && b1 < 256
    ensures GetMasked(b0, b1, 6) < 256
    ensures GetMasked(b0, b1, 6) % 4 == b0 / 64 && GetMasked(b0, b1, 6) / 4 == b1 % 16
  {}

  lemma GetWord02(b0: bv16, b1: bv16)
    requires b0 < 256 && b1 < 256
    ensures GetMasked(b0, b1, 0) == b0 % 64 && GetMasked(b0, b1, 2) == b0 / 4
  {}

  lemma SetFirstWord0(b0: bv16, v: bv16)
    requires b0 < 256 && v < 64
    ensures SetMaskedFirst(b0, 0, v) < 256
    ensures SetMaskedFirst(b0, 0, v) % 64 == v && SetMaskedFirst(b0, 0, v) / 64 == b0 / 64
  {}

  lemma SetFirstWord2(b0: bv16, v: bv16)
    requires b0 < 256 && v < 64
    ensures SetMaskedFirst(b0, 2, v) < 256
    ensures SetMaskedFirst(b0, 2, v) % 4 == b0 % 4 && SetMaskedFirst(b0, 2, v) / 4 == v
  {}

  lemma SetFirstWord4(b0: bv16, v: bv16)
    requires b0 < 256 && v < 64
    ensures SetMaskedFirst(b0, 4, v) < 256
    ensures SetMaskedFirst(b0, 4, v) % 16 == b0 % 16 && SetMaskedFirst(b0, 4, v) / 16 == v % 16
  {}

  lemma SetFirstWord6(b0: bv16, v: bv16)
    requires b0 < 256 && v < 64
    ensures SetMaskedFirst(b0, 6, v) < 256
    ensures SetMaskedFirst(b0, 6, v) % 64 == b0 % 64 && SetMaskedFirst(b0, 6, v) / 64 == v % 4
  {}

  lemma SetSecondWord02(b1: bv16, v: bv16)
    requires b1 < 256 && v < 64
    ensures SetMaskedSecond(b1, 0, v) == b1 && SetMaskedSecond(b1, 2, v) == b1
  {}

  lemma SetSecondWord4(b1: bv16, v: bv16)
    requires b1 < 256 && v < 64
    ensures SetMaskedSecond(b1, 4, v) < 256
    ensures SetMaskedSecond(b1, 4, v) % 4 == v / 16 && SetMaskedSecond(b1, 4, v) / 4 == b1 / 4
  {}

  lemma SetSecondWord6(b1: bv16, v: bv16)
    requires b1 < 256 && v < 64
    ensures SetMaskedSecond(b1, 6, v) < 256
    ensures SetMaskedSecond(b1, 6, v) % 16 == v / 4 && SetMaskedSecond(b1, 6, v) / 16 == b1 / 16
  {}

  /** The same as numbers. */
  ghost function GetMask(b0: bv16, b1: bv16, fb: nat): int
    requires fb in {0, 2, 4, 6}
  {
    GetMasked(b0, b1, fb) as int
  }

  ghost function FirstMask(b0: bv16, fb: nat, v: bv16): int
    requires fb in {0, 2, 4, 6}
  {
    SetMaskedFirst(b0, fb, v) as int
  }

  ghost function SecondMask(b1: bv16, fb: nat, v: bv16): int
    requires fb in {0, 2, 4, 6}
  {
    SetMaskedSecond(b1, fb, v) as int
  }

  lemma GetMask0(b0: bv16, b1: bv16)
    requires b0 < 256 && b1 < 256
    ensures GetMask(b0, b1, 0) == b0 as int % 64
  {
    hide GetMasked;
    GetWord02(b0, b1);
    SixtyFourths(b0);
  }

  lemma GetMask2(b0: bv16, b1: bv16)
    requires b0 < 256 && b1 < 256
    ensures GetMask(b0, b1, 2) == b0 as int / 4
  {
    hide GetMasked;
    GetWord02(b0, b1);
    Quarters(b0);
  }

  lemma GetMask4(b0: bv16, b1: bv16)
    requires b0 < 256 && b1 < 256
    ensures GetMask(b0, b1, 4) % 16 == b0 as int / 16 && GetMask(b0, b1, 4) / 16 == b1 as int % 4
  {
    hide GetMasked;
    GetWord4(b0, b1);
    Sixteenths(GetMasked(b0, b1, 4));
    Sixteenths(b0);
    Quarters(b1);
  }

  lemma GetMask6(b0: bv16, b1: bv16)
    requires b0 < 256 && b1 < 256
    ensures GetMask(b0, b1, 6) % 4 == b0 as int / 64 && GetMask(b0, b1, 6) / 4 == b1 as int % 16
  {
    hide GetMasked;
    GetWord6(b0, b1);
    Quarters(GetMasked(b0, b1, 6));
    SixtyFourths(b0);
    Sixteenths(b1);
  }

  lemma FirstMask0(b0: bv16, v: bv16)
    requires b0 < 256 && v < 64
    ensures FirstMask(b0, 0, v) % 64 == v as int && FirstMask(b0, 0, v) / 64 == b0 as int / 64
  {
    hide SetMaskedFirst;
    SetFirstWord0(b0, v);
    SixtyFourths(SetMaskedFirst(b0, 0, v));
    SixtyFourths(b0);
  }

  lemma FirstMask2(b0: bv16, v: bv16)
    requires b0 < 256 && v < 64
    ensures FirstMask(b0, 2, v) % 4 == b0 as int % 4 && FirstMask(b0, 2, v) / 4 == v as int
  {
    hide SetMaskedFirst;
    SetFirstWord2(b0, v);
    Quarters(SetMaskedFirst(b0, 2, v));
    Quarters(b0);
  }

  lemma FirstMask4(b0: bv16, v: bv16)
    requires b0 < 256 && v < 64
    ensures FirstMask(b0, 4, v) % 16 == b0 as int % 16 && FirstMask(b0, 4, v) / 16 == v as int % 16
  {
    hide SetMaskedFirst;
    SetFirstWord4(b0, v);
    Sixteenths(SetMaskedFirst(b0, 4, v));
    Sixteenths(b0);
    Sixteenths(v);
  }

  lemma FirstMask6(b0: bv16, v: bv16)
    requires b0 < 256 && v < 64
    ensures FirstMask(b0, 6, v) % 64 == b0 as int % 64 && FirstMask(b0, 6, v) / 64 == v as int % 4
  {
    hide SetMaskedFirst;
    SetFirstWord6(b0, v);
    SixtyFourths(SetMaskedFirst(b0, 6, v));
    SixtyFourths(b0);
    Quarters(v);
  }

  lemma SecondMask02(b1: bv16, v: bv16)
    requires b1 < 256 && v < 64
    ensures SecondMask(b1, 0, v) == SecondMask(b1, 2, v) == b1 as int
  {
    hide SetMaskedSecond;
    SetSecondWord02(b1, v);
  }

  lemma SecondMask4(b1: bv16, v: bv16)
    requires b1 < 256 && v < 64
    ensures SecondMask(b1, 4, v) % 4 == v as int / 16 && SecondMask(b1, 4, v) / 4 == b1 as int / 4
  {
    hide SetMaskedSecond;
    SetSecondWord4(b1, v);
    Quarters(SetMaskedSecond(b1, 4, v));
    Quarters(b1);
    Sixteenths(v);
  }

  lemma SecondMask6(b1: bv16, v: bv16)
    requires b1 < 256 && v < 64
    ensures SecondMask(b1, 6, v) % 16 == v as int / 4 && SecondMask(b1, 6, v) / 16 == b1 as int / 16
  {
    hide SetMaskedSecond;
    SetSecondWord6(b1, v);
    Sixteenths(SetMaskedSecond(b1, 6, v));
    Sixteenths(b1);
    Quarters(v);
  }

  /** The masks of a read compute the register. */
  lemma GetByMask(b0: bv16, b1: bv16, fb: nat)
    requires b0 < 256 && b1 < 256 && fb in {0, 2, 4, 6}
    ensures GetMask(b0, b1, fb) == GetBits(AsByte(b0), AsByte(b1), fb)
  {
    hide GetMask;
    GetMask0(b0, b1);
    GetMask2(b0, b1);
    GetMask4(b0, b1);
    GetMask6(b0, b1);
  }

  /** Those of a write compute its two bytes. */
  lemma SetByMask(b: bv16, fb: nat, v: bv16)
    requires b < 256 && fb in {0, 2, 4, 6} && v < 64
    ensures v as int < 64
    ensures FirstMask(b, fb, v) == SetFirst(AsByte(b), fb, v as int)
    ensures SecondMask(b, fb, v) == SetSecond(AsByte(b), fb, v as int)
  {
    hide FirstMask, SecondMask;
    SixBits(v);
    FirstMask0(b, v);
    FirstMask2(b, v);
    FirstMask4(b, v);
    FirstMask6(b, v);
    SecondMask02(b, v);
    SecondMask4(b, v);
    SecondMask6(b, v);
  }

  // ---- Reading back what was written

  lemma By4(a: nat, m: nat)
    requires a < 4
    ensures (m * 4 + a) / 4 == m && (m * 4 + a) % 4 == a
  {}

  lemma By16(a: nat, m: nat)
    requires a < 16
    ensures (m * 16 + a) / 16 == m && (m * 16 + a) % 16 == a
  {}

  lemma By64(a: nat, m: nat)
    requires a < 64
    ensures (m * 64 + a) / 64 == m && (m * 64 + a) % 64 == a
  {}

  /** What was written is read back. */
  lemma BitsBack(b0: byte, b1: byte, fb: nat, v: nat)
    requires fb in {0, 2, 4, 6} && v < 64
    ensures GetBits(SetFirst(b0, fb, v), SetSecond(b1, fb, v), fb) == v
  {
    if fb == 0 {
      By64(v, b0 / 64);
    } else if fb == 2 {
      By4(b0 % 4, v);
    } else if fb == 4 {
      By16(b0 % 16, v % 16);
      By4(v / 16, b1 / 4);
    } else {
      By64(b0 % 64, v % 4);
      By16(v / 4, b1 / 16);
    }
  }

  /** The register before in the same bytes keeps its bits. */
  lemma BitsBefore(c0: byte, b0: byte, fb: nat, v: nat)
    requires fb in {2, 4, 6} && v < 64
    ensures GetBits(c0, SetFirst(b0, fb, v), if fb == 2 then 4 else if fb == 4 then 6 else 0)
         == GetBits(c0, b0, if fb == 2 then 4 else if fb == 4 then 6 else 0)
    ensures fb == 6 ==> GetBits(SetFirst(b0, 6, v), c0, 0) == GetBits(b0, c0, 0)
  {
    if fb == 2 {
      By4(b0 % 4, v);
    } else if fb == 4 {
      By16(b0 % 16, v % 16);
    } else {
      By64(b0 % 64, v % 4);
    }
  }

  /** So does the one after. */
  lemma BitsAfter(b1: byte, d: byte, fb: nat, v: nat)
    requires fb in {0, 4, 6} && v < 64
    ensures fb == 0 ==> GetBits(SetFirst(b1, 0, v), d, 6) == GetBits(b1, d, 6)
    ensures fb == 4 ==> GetBits(SetSecond(b1, 4, v), d, 2) == GetBits(b1, d, 2)
    ensures fb == 6 ==> GetBits(SetSecond(b1, 6, v), d, 4) == GetBits(b1, d, 4)
  {
    if fb == 0 {
      By64(v, b1 / 64);
    } else if fb == 4 {
      By4(v / 16, b1 / 4);
    } else {
      By16(v / 4, b1 / 16);
    }
  }

  // ---- Registers in a buffer

  function ByteOf(j: nat): nat {
    j * 6 / 8
  }

  function BitOf(j: nat): (fb: nat)
    ensures fb in {0, 2, 4, 6}
  {
    StartBit(j);
    j * 6 % 8
  }

  lemma StartBit(j: nat)
    ensures j * 6 % 8 in {0, 2, 4, 6}
  {
    var k := j % 4;
    assert j * 6 == (j / 4 * 3 + k * 6 / 8) * 8 + k * 6 % 8;
    Under8(j / 4 * 3 + k * 6 / 8, k * 6 % 8);
    assert k == 0 || k == 1 || k == 2 || k == 3;
  }

  lemma Under8(q: nat, r: nat)
    requires r < 8
    ensures (q * 8 + r) % 8 == r
  {}

  function Get(r: seq<byte>, j: nat): (v: nat)
    requires |r| == DENSE_BYTES + 1 && j < REGISTERS
    ensures v < 64
  {
    GetBits(r[ByteOf(j)], r[ByteOf(j) + 1], BitOf(j))
  }

  function Set(r: seq<byte>, j: nat, v: nat): (t: seq<byte>)
    requires |r| == DENSE_BYTES + 1 && j < REGISTERS && v < 64
    ensures |t| == |r|
  {
    var at := ByteOf(j);
    r[at := SetFirst(r[at], BitOf(j), v)][at + 1 := SetSecond(r[at + 1], BitOf(j), v)]
  }

  /** Four registers are three bytes: both spell the same number of 24 bits, low
      end first. */
  lemma FourRegisters(r: seq<byte>, q: nat)
    requires |r| == 12289 && q < 4096
    ensures Get(r, 4 * q) + 64 * Get(r, 4 * q + 1) + 4096 * Get(r, 4 * q + 2) + 262144 * Get(r, 4 * q + 3)
         == r[3 * q] as int + 256 * r[3 * q + 1] as int + 65536 * r[3 * q + 2] as int
  {
    var a: int, b: int, c: int := r[3 * q], r[3 * q + 1], r[3 * q + 2];
    assert Get(r, 4 * q) == a % 64 && Get(r, 4 * q + 1) == a / 64 + b % 16 * 4;
    assert Get(r, 4 * q + 2) == b / 16 + c % 4 * 16 && Get(r, 4 * q + 3) == c / 4;
  }

  /** Where registers are: the one after starts six bits on, and any other that
      starts in the next byte follows one that ends in its own. */
  lemma Layout(j: nat, i: nat)
    requires j < i
    ensures i == j + 1 && BitOf(j) == 0 ==> ByteOf(i) == ByteOf(j) && BitOf(i) == 6
    ensures i == j + 1 && BitOf(j) != 0 ==> ByteOf(i) == ByteOf(j) + 1 && BitOf(i) == BitOf(j) - 2
    ensures i > j + 1 ==> ByteOf(i) > ByteOf(j)
    ensures i > j + 1 && ByteOf(i) == ByteOf(j) + 1 ==> BitOf(j) <= 2
  {
    var k := j % 4;
    assert j * 6 == j / 4 * 24 + k * 6;
  }

  /** Writing a register changes none before it. */
  lemma SetKeepsBefore(r: seq<byte>, j: nat, v: nat, i: nat)
    requires |r| == DENSE_BYTES + 1 && i < j < REGISTERS && v < 64
    ensures Get(Set(r, j, v), i) == Get(r, i)
  {
    Layout(i, j);
    hide GetBits, SetFirst, SetSecond;
    if i == j - 1 && BitOf(j) != 0 {
      BitsBefore(if BitOf(j) == 6 then r[ByteOf(i) + 1] else r[ByteOf(i)], r[ByteOf(j)], BitOf(j), v);
      if BitOf(j) == 6 {
        TopBits(SetFirst(r[ByteOf(j)], 6, v), SetSecond(r[ByteOf(j) + 1], 6, v), r[ByteOf(i) + 1], 0);
      }
    } else if BitOf(i) <= 2 {
      TopBits(r[ByteOf(i)], r[ByteOf(i) + 1], Set(r, j, v)[ByteOf(i) + 1], BitOf(i));
    }
  }

  lemma TopBits(b: byte, c: byte, d: byte, fb: nat)
    requires fb == 0 || fb == 2
    ensures GetBits(b, c, fb) == GetBits(b, d, fb)
  {}

  /** Nor any after it. */
  lemma SetKeepsAfter(r: seq<byte>, j: nat, v: nat, i: nat)
    requires |r| == DENSE_BYTES + 1 && j < i < REGISTERS && v < 64
    ensures Get(Set(r, j, v), i) == Get(r, i)
  {
    Layout(j, i);
    if i == j + 1 && BitOf(j) in {0, 4, 6} {
      BitsAfter(r[ByteOf(i)], r[ByteOf(i) + 1], BitOf(j), v);
    }
    hide GetBits, SetFirst;
  }

  /** Writing a register changes that register and no other. */
  lemma SetRegister(r: seq<byte>, j: nat, v: nat)
    requires |r| == DENSE_BYTES + 1 && j < REGISTERS && v < 64
    ensures Registers(Set(r, j, v)) == Registers(r)[j := v]
  {
    BitsBack(r[ByteOf(j)], r[ByteOf(j) + 1], BitOf(j), v);
    hide GetBits, SetFirst, SetSecond;
    forall i | 0 <= i < REGISTERS ensures Get(Set(r, j, v), i) == Registers(r)[j := v][i] {
      if i < j {
        SetKeepsBefore(r, j, v, i);
      } else if i > j {
        SetKeepsAfter(r, j, v, i);
      }
    }
  }

  ghost function Registers(r: seq<byte>): (s: seq<nat>)
    requires |r| == DENSE_BYTES + 1
    ensures |s| == REGISTERS && forall j :: 0 <= j < REGISTERS ==> s[j] == Get(r, j) < 64
  {
    seq(REGISTERS, j requires 0 <= j < REGISTERS => Get(r, j))
  }
}
