// SHA-1 as a stream: buffering, counting and padding around a block transform
// that stays uninterpreted.
module Sha1 {
  import opened Bytes

  /** The five 32-bit words of the state. */
  datatype Words = Words(a: nat, b: nat, c: nat, d: nat, e: nat)

  const INITIAL := Words(0x67452301, 0xEFCDAB89, 0x98BADCFE, 0x10325476, 0xC3D2E1F0)

  /** The compression of one 64-byte block into the state. */
  type Transform = (Words, seq<byte>) -> Words

  // ---- The function that is streamed

  ghost function FoldBlocks(tr: Transform, w: Words, m: seq<byte>): Words
    decreases |m|
  {
    if |m| < 64 then w else FoldBlocks(tr, tr(w, m[..64]), m[64..])
  }

  /** What fills blocks, and what is left over. */
  ghost function Full(m: seq<byte>): (f: seq<byte>)
    ensures |f| == |m| - |m| % 64
  {
    m[..|m| - |m| % 64]
  }

  ghost function Tail(m: seq<byte>): (t: seq<byte>)
    ensures |t| == |m| % 64
  {
    m[|m| - |m| % 64..]
  }

  lemma FullAndTail(m: seq<byte>)
    ensures m == Full(m) + Tail(m) && |Full(m)| % 64 == 0
  {
    Split64ths(|Full(m)|, |m| / 64, 0);
    Halves(m, |m| - |m| % 64);
  }

  lemma Halves(s: seq<byte>, i: nat)
    requires i <= |s|
    ensures s[..i] + s[i..] == s
  {}

  lemma Split64ths(v: nat, q: nat, r: nat)
    requires v == q * 64 + r && r < 64
    ensures v % 64 == r && 8 * v % 512 == 8 * r
  {}

  function DigestBytes(w: Words): seq<byte> {
    BigEndian(w.a, 4) + BigEndian(w.b, 4) + BigEndian(w.c, 4) + BigEndian(w.d, 4) + BigEndian(w.e, 4)
  }

  /** The padding of section 5.1.1 of FIPS 180-4: a one bit, the fewest zero
      bits that leave 64 bits to the end of a block, and the length in bits. */
  ghost function Padding(len: nat): seq<byte> {
    [0x80] + ZeroBytes((119 - len % 64) % 64) + BigEndian(8 * len % TWO64, 8)
  }

  ghost function Digest(tr: Transform, m: seq<byte>): seq<byte> {
    DigestBytes(FoldBlocks(tr, INITIAL, m + Padding(|m|)))
  }

  // ---- Facts about folding

  lemma {:induction false} FoldAppend(tr: Transform, w: Words, m: seq<byte>, n: seq<byte>)
    requires |m| % 64 == 0
    ensures FoldBlocks(tr, w, m + n) == FoldBlocks(tr, FoldBlocks(tr, w, m), n)
    decreases |m|
  {
    if |m| < 64 {
      assert m + n == n;
    } else {
      assert (m + n)[..64] == m[..64] && (m + n)[64..] == m[64..] + n;
      FoldAppend(tr, tr(w, m[..64]), m[64..], n);
    }
  }

  /** The state depends on the full blocks only. */
  lemma FoldFull(tr: Transform, w: Words, m: seq<byte>)
    ensures FoldBlocks(tr, w, m) == FoldBlocks(tr, w, Full(m))
  {
    hide Full, Tail;
    FullAndTail(m);
    FoldAppend(tr, w, Full(m), Tail(m));
  }

  /** One more block after full ones. */
  lemma FoldOne(tr: Transform, w: Words, m: seq<byte>, block: seq<byte>)
    requires |m| % 64 == 0 && |block| == 64
    ensures FoldBlocks(tr, w, m + block) == tr(FoldBlocks(tr, w, m), block)
  {
    FoldAppend(tr, w, m, block);
    assert block[..64] == block;
  }

  /** A message of one block: a one bit behind it, zeros, and its length in bits,
      compressed into the initial state of section 5.3.1 of FIPS 180-4. */
  lemma ShortDigest(tr: Transform, m: seq<byte>, block: seq<byte>, w: Words)
    requires |m| <= 55 && block == m + [0x80] + ZeroBytes(55 - |m|) + BigEndian(8 * |m|, 8)
    requires w == tr(Words(0x67452301, 0xEFCDAB89, 0x98BADCFE, 0x10325476, 0xC3D2E1F0), block)
    ensures Digest(tr, m)
         == BigEndian(w.a, 4) + BigEndian(w.b, 4) + BigEndian(w.c, 4) + BigEndian(w.d, 4) + BigEndian(w.e, 4)
  {
    hide *;
    OneBlock(m, block);
    FoldBlock(tr, INITIAL, block);
    DigestIs(tr, m, block);
  }

  lemma DigestIs(tr: Transform, m: seq<byte>, block: seq<byte>)
    requires m + Padding(|m|) == block && FoldBlocks(tr, INITIAL, block) == tr(INITIAL, block)
    ensures var w := tr(Words(0x67452301, 0xEFCDAB89, 0x98BADCFE, 0x10325476, 0xC3D2E1F0), block);
      Digest(tr, m)
        == BigEndian(w.a, 4) + BigEndian(w.b, 4) + BigEndian(w.c, 4) + BigEndian(w.d, 4) + BigEndian(w.e, 4)
  {
    hide BigEndian, Padding, FoldBlocks;
  }

  lemma OneBlock(m: seq<byte>, block: seq<byte>)
    requires |m| <= 55 && block == m + [0x80] + ZeroBytes(55 - |m|) + BigEndian(8 * |m|, 8)
    ensures |block| == 64 && m + Padding(|m|) == block
  {
    hide *;
    ShortPadding(|m|);
    Behind(m, [0x80], ZeroBytes(55 - |m|), BigEndian(8 * |m|, 8));
  }

  lemma Behind(a: seq<byte>, b: seq<byte>, c: seq<byte>, d: seq<byte>)
    ensures a + (b + c + d) == a + b + c + d
    ensures |a + b + c + d| == |a| + |b| + |c| + |d|
  {}

  lemma FoldBlock(tr: Transform, w: Words, block: seq<byte>)
    requires |block| == 64
    ensures FoldBlocks(tr, w, block) == tr(w, block)
  {
    NoBlock(tr, w);
    FoldOne(tr, w, [], block);
    assert [] + block == block;
  }

  lemma ShortPadding(len: nat)
    requires len <= 55
    ensures Padding(len) == [0x80] + ZeroBytes(55 - len) + BigEndian(8 * len, 8)
  {
    hide BigEndian, ZeroBytes;
    assert len % 64 == len && (119 - len) % 64 == 55 - len;
  }

  lemma NoBlock(tr: Transform, w: Words)
    ensures FoldBlocks(tr, w, []) == w
  {}

  /** The padded message fills blocks exactly, and no shorter padding does. */
  lemma PaddingFits(len: nat)
    ensures (len + |Padding(len)|) % 64 == 0
    ensures 9 <= |Padding(len)| < 9 + 64
  {
    var r := len % 64;
    var zeros := (119 - r) % 64;
    assert |Padding(len)| == zeros + 9;
    hide Padding;
    if r <= 55 {
      assert zeros == 55 - r;
      Split64ths(len + zeros + 9, len / 64 + 1, 0);
    } else {
      assert zeros == 119 - r;
      Split64ths(len + zeros + 9, len / 64 + 2, 0);
    }
  }

  /** The last eight bytes give the length away. */
  lemma PaddedLength(m: seq<byte>)
    requires |m| < TWO64 / 8
    ensures var p := m + Padding(|m|); FromBigEndian(p[|p| - 8..]) == 8 * |m|
  {
    hide BigEndian, ZeroBytes, FromBigEndian;
    var bits := BigEndian(8 * |m|, 8);
    assert 8 * |m| % TWO64 == 8 * |m|;
    EndsWith(m, [0x80] + ZeroBytes((119 - |m| % 64) % 64), bits);
    assert Pow256(8) == TWO64;
    BigEndianRoundTrip(8 * |m|, 8);
  }

  lemma EndsWith(a: seq<byte>, b: seq<byte>, c: seq<byte>)
    ensures var p := a + (b + c); p[|p| - |c|..] == c
  {}

  /** Different messages stay different when padded. */
  lemma PaddingInjective(m: seq<byte>, n: seq<byte>)
    requires |m| < TWO64 / 8 && |n| < TWO64 / 8
    requires m + Padding(|m|) == n + Padding(|n|)
    ensures m == n
  {
    hide Padding, FromBigEndian;
    PaddedLength(m);
    PaddedLength(n);
    assert m == (m + Padding(|m|))[..|m|] && n == (n + Padding(|n|))[..|n|];
  }

  // ---- Counting

  /** The carry shows as a sum below what was added to. */
  lemma AddLow(c0: nat, x: nat)
    requires c0 < TWO32 && x < TWO32
    ensures var low := (c0 + x) % TWO32; c0 + x == low + (if low < c0 then TWO32 else 0)
  {
    if c0 + x < TWO32 {
      Split32(c0 + x, 0, c0 + x);
    } else {
      Split32(c0 + x, 1, c0 + x - TWO32);
    }
  }

  lemma Bits(chunk: nat)
    requires chunk < TWO32
    ensures 8 * chunk == chunk / 0x2000_0000 * TWO32 + 8 * chunk % TWO32
  {
    Split32(8 * chunk, chunk / 0x2000_0000, 8 * (chunk % 0x2000_0000));
  }

  /** Two words hold a length in bits, modulo 2^64. */
  ghost predicate Counted(len: nat, c0: nat, c1: nat) {
    c0 < TWO32 && c1 < TWO32 && c1 * TWO32 + c0 == 8 * len % TWO64
  }

  /** Adding a chunk to the two-word bit count, with the carry the code takes. */
  lemma CountStep(len: nat, chunk: nat, c0: nat, c1: nat, low: nat, high: nat)
    requires Counted(len, c0, c1) && chunk < TWO32
    requires low == (c0 + 8 * chunk % TWO32) % TWO32
    requires high == ((if low < c0 then (c1 + 1) % TWO32 else c1) + chunk / 0x2000_0000) % TWO32
    ensures Counted(len + chunk, low, high)
  {
    Bits(chunk);
    AddLow(c0, 8 * chunk % TWO32);
    var carried := if low < c0 then (c1 + 1) % TWO32 else c1;
    var q1 := CarryLow(c0, c1, low);
    AddWords(len, chunk, c0, c1, low, high, 8 * len / TWO64, q1, carried, (carried + chunk / 0x2000_0000) / TWO32);
  }

  /** The high word takes the carry, and may wrap around. */
  lemma CarryLow(c0: nat, c1: nat, low: nat) returns (q: nat)
    requires c1 < TWO32
    ensures (if low < c0 then c1 + 1 else c1) == q * TWO32 + if low < c0 then (c1 + 1) % TWO32 else c1
  {
    q := if low < c0 then (c1 + 1) / TWO32 else 0;
  }

  /** The words add up: whatever wraps around is a multiple of 2^64. */
  lemma AddWords(len: nat, chunk: nat, c0: nat, c1: nat, low: nat, high: nat, q: nat, q1: nat, carried: nat, q2: nat)
    requires 8 * len == q * TWO64 + c1 * TWO32 + c0
    requires 8 * chunk == chunk / 0x2000_0000 * TWO32 + 8 * chunk % TWO32
    requires c0 + 8 * chunk % TWO32 == low + if low < c0 then TWO32 else 0
    requires (if low < c0 then c1 + 1 else c1) == q1 * TWO32 + carried
    requires carried + chunk / 0x2000_0000 == q2 * TWO32 + high
    requires low < TWO32 && high < TWO32
    ensures Counted(len + chunk, low, high)
  {
    AddUp(8 * len, 8 * chunk, c0, c1, 8 * chunk % TWO32, chunk / 0x2000_0000, low, high, q, q1, carried, q2);
    Split64(8 * (len + chunk), q + q1 + q2, high * TWO32 + low);
  }

  lemma AddUp(m: nat, n: nat, c0: nat, c1: nat, x: nat, y: nat, low: nat, high: nat, q: nat, q1: nat, carried: nat,
              q2: nat)
    requires m == q * TWO64 + c1 * TWO32 + c0 && n == y * TWO32 + x
    requires c0 + x == low + if low < c0 then TWO32 else 0
    requires (if low < c0 then c1 + 1 else c1) == q1 * TWO32 + carried
    requires carried + y == q2 * TWO32 + high
    ensures m + n == (q + q1 + q2) * TWO64 + (high * TWO32 + low)
  {}

  /** The low word tells how full the buffer is. */
  lemma Filled(len: nat, c0: nat, c1: nat)
    requires Counted(len, c0, c1)
    ensures c0 / 8 % 64 == len % 64
    ensures c0 % 512 == 8 * (len % 64)
  {
    var q := 8 * len / TWO64;
    assert 8 * len == q * TWO64 + c1 * TWO32 + c0;
    FilledBy(len, c0, q * 0x80_0000_0000_0000 + c1 * 0x80_0000);
  }

  lemma FilledBy(len: nat, c0: nat, k: nat)
    requires 8 * len == 512 * k + c0
    ensures c0 / 8 % 64 == len % 64
    ensures c0 % 512 == 8 * (len % 64)
  {
    var m := len - 64 * k;
    assert c0 == 8 * m;
    Split64ths(m, m / 64, m % 64);
    Split64ths(len, k + m / 64, m % 64);
  }

  /** The block that completes the buffer. */
  lemma Absorb(tr: Transform, was: seq<byte>, data: seq<byte>, i: nat, block: seq<byte>)
    requires i == 64 - |was| % 64 && i <= |data|
    requires block == Tail(was) + data[..i]
    ensures (|was| + i) % 64 == 0
    ensures FoldBlocks(tr, INITIAL, was + data[..i]) == tr(FoldBlocks(tr, INITIAL, was), block)
  {
    hide FoldBlocks, Full, Tail;
    Split64ths(|was| + i, |was| / 64 + 1, 0);
    FullAndTail(was);
    FoldFull(tr, INITIAL, was);
    Completed(tr, Full(was), Tail(was), data[..i]);
  }

  lemma Completed(tr: Transform, full: seq<byte>, tail: seq<byte>, more: seq<byte>)
    requires |full| % 64 == 0 && |tail| + |more| == 64
    ensures FoldBlocks(tr, INITIAL, full + tail + more) == tr(FoldBlocks(tr, INITIAL, full), tail + more)
  {
    hide FoldBlocks;
    FoldOne(tr, INITIAL, full, tail + more);
    assert full + tail + more == full + (tail + more);
  }

  /** Bytes that stay in the buffer. */
  lemma Leftover(tr: Transform, m: seq<byte>, rest: seq<byte>)
    requires |m| % 64 + |rest| < 64
    ensures FoldBlocks(tr, INITIAL, m + rest) == FoldBlocks(tr, INITIAL, m)
    ensures Tail(m + rest) == Tail(m) + rest
  {
    hide FoldBlocks;
    Split64ths(|m + rest|, |m| / 64, |m| % 64 + |rest|);
    var cut := |m| - |m| % 64;
    FoldFull(tr, INITIAL, m);
    FoldFull(tr, INITIAL, m + rest);
    SliceSum(m, rest, cut);
  }

  lemma SliceSum(m: seq<byte>, rest: seq<byte>, cut: nat)
    requires cut <= |m|
    ensures (m + rest)[..cut] == m[..cut] && (m + rest)[cut..] == m[cut..] + rest
  {}

  /** The two count words spell the length in bits. */
  lemma CountBytes(c0: nat, c1: nat)
    requires c0 < TWO32
    ensures BigEndian(c1, 4) + BigEndian(c0, 4) == BigEndian(c1 * TWO32 + c0, 8)
  {
    hide BigEndian;
    assert Pow256(4) == TWO32;
    BigEndianSplit(c1, c0, 4);
  }

  lemma {:induction false} BigEndianSplit(high: nat, low: nat, n: nat)
    requires low < Pow256(n)
    ensures BigEndian(high, 4) + BigEndian(low, n) == BigEndian(high * Pow256(n) + low, 4 + n)
    decreases n
  {
    if n == 0 {
      assert BigEndian(high, 4) + BigEndian(low, n) == BigEndian(high, 4);
    } else {
      BigEndianSplit(high, low / 256, n - 1);
      LastByteOfSum(high, low, Pow256(n - 1));
      assert BigEndian(low, n) == BigEndian(low / 256, n - 1) + [low % 256];
    }
  }

  lemma LastByteOfSum(high: nat, low: nat, p: nat)
    ensures (high * (256 * p) + low) / 256 == high * p + low / 256
    ensures (high * (256 * p) + low) % 256 == low % 256
  {
    assert high * (256 * p) == 256 * (high * p);
    assert high * (256 * p) + low == 256 * (high * p + low / 256) + low % 256;
  }

  ghost function SpellWords(words: seq<nat>): (r: seq<byte>)
    ensures |r| == 4 * |words|
  {
    if words == [] then [] else SpellWords(words[..|words| - 1]) + BigEndian(words[|words| - 1], 4)
  }

  /** Words to bytes, most significant byte first, by shifting and masking. */
  method WordBytes(words: seq<nat>) returns (r: seq<byte>)
    ensures r == SpellWords(words)
  {
    hide BigEndian, Pow256;
    r := [];
    for w := 0 to |words|
      invariant r == SpellWords(words[..w])
    {
      assert words[..w + 1][..w] == words[..w];
      ghost var start := r;
      for i := 0 to 4
        invariant r == start + BigEndian(words[w], 4)[..i]
      {
        BigEndianAt(words[w], 4, i);
        r := r + [words[w] / Pow256(3 - i) % 256];
      }
    }
    assert words[..|words|] == words;
  }

  lemma TwoWords(a: nat, b: nat)
    ensures SpellWords([a, b]) == BigEndian(a, 4) + BigEndian(b, 4)
  {
    assert [a, b][..1] == [a] && [a][..0] == [];
  }

  lemma FiveWords(w: Words)
    ensures SpellWords([w.a, w.b, w.c, w.d, w.e]) == DigestBytes(w)
  {
    hide BigEndian;
    var s := [w.a, w.b, w.c, w.d, w.e];
    assert [w.a, w.b, w.c][..2] == [w.a, w.b];
    assert [w.a, w.b, w.c, w.d][..3] == [w.a, w.b, w.c];
    assert s[..4] == [w.a, w.b, w.c, w.d];
    TwoWords(w.a, w.b);
    assert SpellWords([w.a, w.b, w.c]) == SpellWords([w.a, w.b]) + BigEndian(w.c, 4);
    assert SpellWords([w.a, w.b, w.c, w.d]) == SpellWords([w.a, w.b, w.c]) + BigEndian(w.d, 4);
  }

  /** When the padding with zeros stops. */
  lemma ZerosLeft(len: nat, zeros: nat)
    requires zeros <= (119 - len % 64) % 64
    ensures 8 * ((len + 1 + zeros) % 64) == 448 <==> zeros == (119 - len % 64) % 64
  {
    var r := len % 64;
    if r + 1 + zeros < 64 {
      Split64ths(len + 1 + zeros, len / 64, r + 1 + zeros);
    } else {
      Split64ths(len + 1 + zeros, len / 64 + 1, r + 1 + zeros - 64);
    }
  }

  ghost function Concat(chunks: seq<seq<byte>>): seq<byte> {
    if chunks == [] then [] else Concat(chunks[..|chunks| - 1]) + chunks[|chunks| - 1]
  }

  /** State and buffer have taken in `m`: its full blocks are folded, the rest is
      in front of the buffer. */
  ghost predicate Buffered(tr: Transform, state: Words, buf: seq<byte>, m: seq<byte>) {
    |buf| == 64 && state == FoldBlocks(tr, INITIAL, m) && buf[..|m| % 64] == Tail(m)
  }

  lemma NothingBuffered(tr: Transform, buf: seq<byte>)
    requires |buf| == 64
    ensures Buffered(tr, INITIAL, buf, []) && Counted(0, 0, 0)
  {}

  /** The buffer completed and folded. */
  lemma FirstBlock(tr: Transform, state: Words, buf: seq<byte>, m: seq<byte>, more: seq<byte>, now: seq<byte>)
    requires Buffered(tr, state, buf, m) && |m| % 64 + |more| == 64 && now == buf[..|m| % 64] + more
    ensures |m + more| % 64 == 0 && Buffered(tr, tr(state, now), now, m + more)
  {
    hide FoldBlocks, Full;
    assert more[..|more|] == more;
    Absorb(tr, m, more, |more|, now);
    NoTail(m + more);
  }

  lemma NoTail(m: seq<byte>)
    requires |m| % 64 == 0
    ensures Tail(m) == []
  {}

  /** A block folded straight from the data. */
  lemma MoreBlocks(tr: Transform, state: Words, buf: seq<byte>, m: seq<byte>, block: seq<byte>)
    requires Buffered(tr, state, buf, m) && |m| % 64 == 0 && |block| == 64
    ensures |m + block| % 64 == 0 && Buffered(tr, tr(state, block), buf, m + block)
  {
    hide FoldBlocks, Full;
    Split64ths(|m + block|, |m| / 64 + 1, 0);
    FoldOne(tr, INITIAL, m, block);
    NoTail(m);
    NoTail(m + block);
  }

  /** The rest, put behind what the buffer holds. */
  lemma RestBuffered(tr: Transform, state: Words, buf: seq<byte>, m: seq<byte>, rest: seq<byte>, now: seq<byte>)
    requires Buffered(tr, state, buf, m) && |m| % 64 + |rest| < 64
    requires now == buf[..|m| % 64] + rest + buf[|m| % 64 + |rest|..]
    ensures Buffered(tr, state, now, m + rest)
  {
    hide FoldBlocks, Full, Tail;
    Leftover(tr, m, rest);
    Split64ths(|m + rest|, |m| / 64, |m| % 64 + |rest|);
    assert now[..|m| % 64 + |rest|] == buf[..|m| % 64] + rest;
  }

  lemma BufferSize(tr: Transform, state: Words, buf: seq<byte>, m: seq<byte>)
    requires Buffered(tr, state, buf, m)
    ensures |buf| == 64
  {}

  lemma TakeMore(data: seq<byte>, i: nat, j: nat, was: seq<byte>)
    requires i <= j <= |data|
    ensures was + data[..j] == was + data[..i] + data[i..j]
    ensures was + data == was + data[..i] + data[i..]
  {}

  /** How many zeros the padding of a message has. */
  ghost function ZeroCount(len: nat): nat {
    (119 - len % 64) % 64
  }

  /** `m` is `was` with a one bit and so many zeros. */
  ghost predicate PaddedTo(was: seq<byte>, m: seq<byte>, zeros: nat) {
    zeros <= ZeroCount(|was|) && m == was + [0x80] + ZeroBytes(zeros)
  }

  lemma OneBit(was: seq<byte>)
    ensures PaddedTo(was, was + [0x80], 0)
  {
    assert was + [0x80] + ZeroBytes(0) == was + [0x80];
  }

  /** Whether the zeros end is told by the low count word. */
  lemma OneZero(was: seq<byte>, m: seq<byte>, zeros: nat, c0: nat, c1: nat)
    requires PaddedTo(was, m, zeros) && Counted(|m|, c0, c1)
    ensures c0 % 512 / 8 * 8 == 448 <==> zeros == ZeroCount(|was|)
    ensures zeros < ZeroCount(|was|) ==> PaddedTo(was, m + [0], zeros + 1)
  {
    Filled(|m|, c0, c1);
    ZerosLeft(|was|, zeros);
    assert ZeroBytes(zeros) + [0] == ZeroBytes(zeros + 1);
    assert was + [0x80] + ZeroBytes(zeros) + [0] == was + [0x80] + (ZeroBytes(zeros) + [0]);
  }

  /** The hashing context: state, two-word bit count and a buffer for the
      bytes that do not fill a block yet. `message` is all that was hashed. */
  class Context {
    const transform: Transform
    const buffer: array<byte>
    var state: Words
    var count0: nat
    var count1: nat
    ghost var message: seq<byte>

    ghost predicate Valid()
      reads this, buffer
    {
      Counted(|message|, count0, count1) && Buffered(transform, state, buffer[..], message)
    }

    constructor (tr: Transform)
      ensures Valid() && message == [] && transform == tr && fresh(buffer)
    {
      hide Counted, Buffered;
      transform := tr;
      buffer := new byte[64](_ => 0);
      state := INITIAL;
      count0, count1 := 0, 0;
      message := [];
      new;
      NothingBuffered(tr, buffer[..]);
    }

    method Copy(at: nat, data: seq<byte>)
      requires at + |data| <= buffer.Length
      modifies buffer
      ensures buffer[..] == old(buffer[..])[..at] + data + old(buffer[..])[at + |data|..]
    {
      forall k | 0 <= k < |data| {
        buffer[at + k] := data[k];
      }
    }

    /** The bit count grows by a chunk of `len` bytes. */
    method Count(len: nat)
      requires Counted(|message|, count0, count1) && len < TWO32
      modifies `count0, `count1
      ensures Counted(|message| + len, count0, count1)
    {
      hide Counted;
      var j := count0;
      count0 := (count0 + 8 * len % TWO32) % TWO32;
      if count0 < j {
        count1 := (count1 + 1) % TWO32;
      }
      count1 := (count1 + len / 0x2000_0000) % TWO32;
      CountStep(|message|, len, old(count0), old(count1), count0, count1);
    }

    /** Completes the buffer from the data, and folds it and all further blocks. */
    method FullBlocks(data: seq<byte>, j: nat) returns (i: nat)
      requires Buffered(transform, state, buffer[..], message) && j == |message| % 64 && j + |data| > 63
      modifies `state, buffer
      ensures i <= |data| < i + 64 && |message + data[..i]| % 64 == 0
      ensures Buffered(transform, state, buffer[..], message + data[..i])
    {
      hide Buffered;
      ghost var st, buf := state, buffer[..];
      BufferSize(transform, st, buf, message);
      i := 64 - j;
      Copy(j, data[..i]);
      state := transform(state, buffer[..]);
      FirstBlock(transform, st, buf, message, data[..i], buffer[..]);
      while i + 63 < |data|
        invariant i <= |data| && |message + data[..i]| % 64 == 0
        invariant Buffered(transform, state, buffer[..], message + data[..i])
        modifies `state
      {
        MoreBlocks(transform, state, buffer[..], message + data[..i], data[i..i + 64]);
        TakeMore(data, i, i + 64, message);
        state := transform(state, data[i..i + 64]);
        i := i + 64;
      }
    }

    /** Hash a chunk. Its length is a 32-bit number the code adds up to 63 to. */
    method Update(data: seq<byte>)
      requires Valid() && |data| <= TWO32 - 64
      modifies this, buffer
      ensures Valid() && message == old(message) + data
    {
      hide Counted, Buffered;
      Filled(|message|, count0, count1);
      var j := count0 / 8 % 64;
      Count(|data|);
      var i := 0;
      assert message + data[..0] == message;
      if j + |data| > 63 {
        i := FullBlocks(data, j);
        j := 0;
      }
      ghost var buf, was := buffer[..], message + data[..i];
      BufferSize(transform, state, buf, was);
      Copy(j, data[i..]);
      RestBuffered(transform, state, buf, was, data[i..], buffer[..]);
      TakeMore(data, i, i, message);
      message := message + data;
    }

    /** A one bit, then zeros until 64 bits are left to the end of a block. */
    method PadOut()
      requires Valid()
      modifies this, buffer
      ensures Valid()
      ensures message == old(message) + [0x80] + ZeroBytes((119 - |old(message)| % 64) % 64)
    {
      hide Counted, Buffered, PaddedTo, ZeroCount;
      ghost var was, zeros := message, 0;
      OneBit(was);
      Update([0x80]);
      OneZero(was, message, zeros, count0, count1);
      while count0 % 512 / 8 * 8 != 448
        invariant Valid() && PaddedTo(was, message, zeros)
        invariant zeros <= ZeroCount(|was|)
        invariant count0 % 512 / 8 * 8 == 448 <==> zeros == ZeroCount(|was|)
        decreases ZeroCount(|was|) - zeros
      {
        OneZero(was, message, zeros, count0, count1);
        Update([0]);
        zeros := zeros + 1;
        OneZero(was, message, zeros, count0, count1);
        AtMost(was, message, zeros);
      }
      PadsOut(was, message, zeros);
    }

    /** Pad the message, give its digest and wipe the context. */
    method Final() returns (digest: seq<byte>)
      requires Valid()
      modifies this, buffer
      ensures digest == Digest(transform, old(message)) && |digest| == 20
      ensures state == Words(0, 0, 0, 0, 0) && count0 == count1 == 0
      ensures forall i :: 0 <= i < buffer.Length ==> buffer[i] == 0
    {
      hide FoldBlocks, Tail, BigEndian, ZeroBytes, Counted, SpellWords, DigestBytes;
      ghost var was := message;
      var finalcount := WordBytes([count1, count0]);
      LengthBytes(|was|, count0, count1);
      PadOut();
      Update(finalcount);
      assert message == was + Padding(|was|);
      digest := WordBytes([state.a, state.b, state.c, state.d, state.e]);
      FiveWords(state);
      DigestSize(state);
      state := Words(0, 0, 0, 0, 0);
      count0, count1 := 0, 0;
      forall i | 0 <= i < buffer.Length {
        buffer[i] := 0;
      }
    }
  }

  lemma AtMost(was: seq<byte>, m: seq<byte>, zeros: nat)
    requires PaddedTo(was, m, zeros)
    ensures zeros <= ZeroCount(|was|)
  {}

  lemma PadsOut(was: seq<byte>, m: seq<byte>, zeros: nat)
    requires PaddedTo(was, m, zeros) && zeros == ZeroCount(|was|)
    ensures m == was + [0x80] + ZeroBytes((119 - |was| % 64) % 64)
  {}

  /** The count words, spelt, are the end of the padding. */
  lemma LengthBytes(len: nat, c0: nat, c1: nat)
    requires Counted(len, c0, c1)
    ensures SpellWords([c1, c0]) == BigEndian(8 * len % TWO64, 8)
  {
    hide BigEndian, SpellWords;
    CountBytes(c0, c1);
    TwoWords(c1, c0);
  }

  lemma DigestSize(w: Words)
    ensures |DigestBytes(w)| == 20
  {}

  /** Hashing chunk by chunk, as the log is written, is hashing in one go. */
  method HashChunks(tr: Transform, chunks: seq<seq<byte>>) returns (digest: seq<byte>)
    requires forall k :: 0 <= k < |chunks| ==> |chunks[k]| <= TWO32 - 64
    ensures digest == Digest(tr, Concat(chunks))
  {
    hide Digest;
    var sha := new Context(tr);
    for k := 0 to |chunks|
      invariant sha.Valid() && sha.transform == tr && fresh(sha) && fresh(sha.buffer)
      invariant sha.message == Concat(chunks[..k])
    {
      sha.Update(chunks[k]);
      assert chunks[..k + 1][..k] == chunks[..k];
    }
    assert chunks[..|chunks|] == chunks;
    digest := sha.Final();
  }
}
