// Machine words as numbers: what dividing by a power of two and masking leave is
// the same on 16-bit words and on integers.
module BitWords {
  import opened Bytes

  /** The byte a word with eight bits in use stands for. */
  function AsByte(w: bv16): (b: byte)
    requires w < 256
    ensures b == w as int
  {
    w as int
  }

  lemma SixBits(v: bv16)
    requires v < 64
    ensures v as int < 64
  {}

  lemma Quarters(v: bv16)
    requires v < 256
    ensures (v / 4) as int == v as int / 4
    ensures (v % 4) as int == v as int % 4
  {}

  lemma Sixteenths(v: bv16)
    requires v < 256
    ensures (v / 16) as int == v as int / 16
    ensures (v % 16) as int == v as int % 16
  {}

  lemma SixtyFourths(v: bv16)
    requires v < 256
    ensures (v / 64) as int == v as int / 64
    ensures (v % 64) as int == v as int % 64
  {}

  lemma ThirtySeconds(v: bv16)
    requires v < 64
    ensures (v % 32) as int == v as int % 32
  {}
}
