// HyperLogLog objects: strings that hold registers as a run-length code or packed,
// raised by hashed elements, promoted from one form to the other, and merged.
module HyperLogLog {
  import opened BitWords
  import opened Bytes
  import opened HllDense
  import opened HllSparse
  import opened Wrappers

  /** "HYLL" in ASCII. */
  const MAGIC: seq<byte> := [0x48, 0x59, 0x4C, 0x4C]
  const HDR_SIZE := 16
  const DENSE: byte := 0
  const SPARSE: byte := 1
  const DENSE_SIZE := HDR_SIZE + DENSE_BYTES
  const SPARSE_MAX_BYTES := 3000

  /** A 64-bit hash, left open. */
  type Hash = seq<byte> -> nat

  // ---- What an element does

  /** Register number: the low 14 bits. */
  function IndexOf(h: nat): (i: nat)
    ensures i < REGISTERS
  {
    h % REGISTERS
  }

  /** A hash is its index and, in units of 16384, the bits the zeros are counted
      in. */
  lemma HashParts(q: nat, i: nat)
    requires i < 16384
    ensures IndexOf(q * 16384 + i) == i && (q * 16384 + i) / REGISTERS == q
  {}

  /** The mask of the source keeps the low byte and six bits of the next. */
  lemma IndexWord(b1: bv16, b0: bv16)
    requires b1 < 256 && b0 < 256
    ensures ((b1 << 8) | b0) & 0x3FFF == ((b1 & 0x3F) << 8) | b0
    ensures b1 & 0x3F == b1 % 64
  {}

  /** That is the index of any hash that ends in the two bytes. */
  lemma IndexByMask(b1: bv16, b0: bv16, q: nat)
    requires b1 < 256 && b0 < 256
    ensures IndexOf(q * 65536 + b1 as int * 256 + b0 as int) == (b1 & 0x3F) as int * 256 + b0 as int
  {
    IndexWord(b1, b0);
    SixtyFourths(b1);
    HashParts(q * 4 + b1 as int / 64, b1 as int % 64 * 256 + b0 as int);
  }

  /** One more than the zeros that start the 50 bits above those, the last of
      which is taken to be set. */
  function CountOf(h: nat): (c: nat)
    ensures 1 <= c <= 50
  {
    Run(h / REGISTERS, 49)
  }

  function Run(bits: nat, n: nat): (c: nat)
    ensures 1 <= c <= n + 1
  {
    if n == 0 || bits % 2 == 1 then 1 else 1 + Run(bits / 2, n - 1)
  }

  function Pow2(n: nat): (p: nat)
    ensures p >= 1
  {
    if n == 0 then 1 else 2 * Pow2(n - 1)
  }

  /** The lowest `k` bits are zeros; what follows them is `rest`, and its lowest
      bit is set, unless there were only `n` bits to look at. */
  ghost predicate ZerosThen(bits: nat, n: nat, k: nat, rest: nat) {
    bits == Pow2(k) * rest && (k == n || rest % 2 == 1)
  }

  /** `zeros` zeros are followed by a one, or are all 49 bits. */
  ghost predicate StartsWith(bits: nat, zeros: int) {
    0 <= zeros <= 49 && exists rest: nat :: ZerosThen(bits, 49, zeros, rest)
  }

  lemma {:induction false} RunOfZeros(bits: nat, n: nat) returns (rest: nat)
    ensures ZerosThen(bits, n, Run(bits, n) - 1, rest)
  {
    if n == 0 || bits % 2 == 1 {
      rest := bits;
    } else {
      rest := RunOfZeros(bits / 2, n - 1);
      Doubled(Pow2(Run(bits / 2, n - 1) - 1), rest);
    }
  }

  lemma Doubled(a: nat, b: nat)
    ensures 2 * (a * b) == 2 * a * b
  {}

  lemma {:induction false} OnlyRun(bits: nat, n: nat, k: nat, rest: nat)
    requires k <= n && ZerosThen(bits, n, k, rest)
    ensures Run(bits, n) == k + 1
    decreases n
  {
    if k > 0 {
      Doubled(Pow2(k - 1), rest);
      OnlyRun(bits / 2, n - 1, k - 1, rest);
    }
  }

  /** The count of a hash is the one number such that this many zeros, and then
      a one or the end, follow the bits of the index. */
  lemma CountOfZeros(h: nat, bits: nat, zeros: nat)
    requires bits == h / REGISTERS && zeros <= 49
    ensures CountOf(h) == zeros + 1 <==> StartsWith(bits, zeros)
  {
    hide Pow2, ZerosThen, Run;
    var rest := RunOfZeros(bits, 49);
    if other: nat :| ZerosThen(bits, 49, zeros, other) {
      OnlyRun(bits, 49, zeros, other);
    }
  }

  predicate IsObject(str: seq<byte>) {
    && |str| >= HDR_SIZE && str[..4] == MAGIC && str[4] <= SPARSE
    && (str[4] == DENSE ==> |str| == DENSE_SIZE)
  }

  /** "HYLL", one of two encodings, and as long as the packed one has to be. */
  ghost predicate LooksRight(str: seq<byte>) {
    && |str| >= 16 && str[0] == 'H' as int && str[1] == 'Y' as int && str[2] == str[3] == 'L' as int
    && (str[4] == 1 || (str[4] == 0 && |str| == 12304))
  }

  /** The packed registers, with the byte after them that the source allocates. */
  function Packed(str: seq<byte>): (r: seq<byte>)
    requires |str| == DENSE_SIZE
    ensures |r| == DENSE_BYTES + 1
  {
    str[HDR_SIZE..] + [0]
  }

  ghost predicate Valid(str: seq<byte>) {
    IsObject(str) && (str[4] == SPARSE ==> ValidCode(str[HDR_SIZE..]))
  }

  /** The registers an object holds, in either form. */
  ghost function Regs(str: seq<byte>): (s: seq<nat>)
    requires Valid(str)
    ensures |s| == REGISTERS
  {
    if str[4] == DENSE then Registers(Packed(str)) else Expand(str[HDR_SIZE..])
  }

  function Max(a: nat, b: nat): nat {
    if a < b then b else a
  }

  /** The registers with one of them raised to at least `count`. */
  ghost function Raised(regs: seq<nat>, index: nat, count: nat): seq<nat>
    requires index < |regs|
  {
    regs[index := Max(regs[index], count)]
  }

  /** The two have the same header, but for the encoding and the byte with the
      flag that the cached cardinality is stale. */
  ghost predicate SameHeader(str: seq<byte>, out: seq<byte>) {
    |str| >= 16 && |out| >= 16 && out[..4] == str[..4] && out[5..15] == str[5..15]
  }

  /** Also of an object that starts like the other. */
  lemma HeaderKept(a: seq<byte>, b: seq<byte>, c: seq<byte>)
    requires SameHeader(a, b) && |c| >= 16 && (c[..16] == b[..16] || c[..15] == b[..15])
    ensures SameHeader(a, c)
  {
    assert c[..16][..15] == c[..15] && b[..16][..15] == b[..15];
    assert c[..4] == c[..15][..4] && c[5..15] == c[..15][5..];
    assert b[..4] == b[..15][..4] && b[5..15] == b[..15][5..];
  }

  /** The header's flag that the cached cardinality is stale. */
  function Invalidated(str: seq<byte>): (t: seq<byte>)
    requires |str| >= HDR_SIZE
    ensures |t| == |str| && t[..15] == str[..15]
  {
    str[15 := if str[15] < 128 then str[15] + 128 else str[15]]
  }

  lemma InvalidatedSame(str: seq<byte>)
    requires Valid(str)
    ensures Valid(Invalidated(str)) && Regs(Invalidated(str)) == Regs(str)
  {
    var t := Invalidated(str);
    assert t[..4] == str[..4] && t[HDR_SIZE..] == str[HDR_SIZE..];
  }

  /** Writes one packed register of an object. */
  function SetIn(str: seq<byte>, j: nat, v: nat): (t: seq<byte>)
    requires |str| == DENSE_SIZE && j < REGISTERS && v < 64
    ensures |t| == |str| && t[..16] == str[..16]
  {
    str[..HDR_SIZE] + Set(Packed(str), j, v)[..DENSE_BYTES]
  }

  lemma SetInRegister(str: seq<byte>, j: nat, v: nat)
    requires Valid(str) && str[4] == DENSE && j < REGISTERS && v < 64
    ensures Valid(SetIn(str, j, v)) && SetIn(str, j, v)[4] == DENSE
    ensures Regs(SetIn(str, j, v)) == Regs(str)[j := v]
  {
    var t := SetIn(str, j, v);
    SetRegister(Packed(str), j, v);
    LastByte(Packed(str), j, v);
    assert t[..4] == str[..4] && t[4] == str[4];
    assert Packed(t) == Set(Packed(str), j, v);
  }

  /** The byte after the last register is never changed. */
  lemma LastByte(r: seq<byte>, j: nat, v: nat)
    requires |r| == DENSE_BYTES + 1 && j < REGISTERS && v < 64
    ensures Set(r, j, v)[DENSE_BYTES] == r[DENSE_BYTES]
  {
    if ByteOf(j) + 1 == DENSE_BYTES {
      assert j % 4 == 3;
      assert BitOf(j) == 2;
    }
  }

  /** The hash pattern of an element, bit by bit. */
  method PatLen(hash: Hash, ele: seq<byte>) returns (index: nat, count: nat)
    ensures index == IndexOf(hash(ele)) && count == CountOf(hash(ele))
    ensures index == hash(ele) % 16384 && 1 <= count <= 50
    ensures StartsWith(hash(ele) / 16384, count - 1)
  {
    CountOfZeros(hash(ele), hash(ele) / REGISTERS, CountOf(hash(ele)) - 1);
    var h := hash(ele);
    index := h % REGISTERS;
    var bits: nat, n: nat := h / REGISTERS, 49;
    count := 1;
    while n > 0 && bits % 2 == 0
      invariant n <= 49 && CountOf(h) == count - 1 + Run(bits, n)
    {
      count := count + 1;
      bits := bits / 2;
      n := n - 1;
    }
  }

  method DenseAdd(str: seq<byte>, index: nat, count: nat) returns (r: int, out: seq<byte>)
    requires Valid(str) && str[4] == DENSE && index < REGISTERS && count < 64
    ensures Valid(out) && out[4] == DENSE && Regs(out) == Raised(Regs(str), index, count)
    ensures r == if count > Regs(str)[index] then 1 else 0
    ensures r == 0 ==> out == str
    ensures |str| == |out| == DENSE_SIZE && out[..16] == str[..16]
  {
    hide Get, SetIn, Registers, Expand, Parses, ValidCode, Regs;
    PackedRegister(str, index);
    var oldCount := Get(Packed(str), index);
    if count > oldCount {
      SetInRegister(str, index, count);
      return 1, SetIn(str, index, count);
    } else {
      return 0, str;
    }
  }

  lemma PackedRegister(str: seq<byte>, index: nat)
    requires Valid(str) && str[4] == DENSE && index < REGISTERS
    ensures Regs(str)[index] == Get(Packed(str), index)
  {
    hide Get;
  }

  /** The header of an object in the other form. */
  function Recoded(str: seq<byte>, encoding: byte): (h: seq<byte>)
    requires |str| >= HDR_SIZE
    ensures |h| == HDR_SIZE && h[..4] == str[..4] && h[4] == encoding && h[5..15] == str[5..15]
  {
    str[..HDR_SIZE][4 := encoding]
  }

  lemma ZeroRegister(r: seq<byte>, j: nat)
    requires |r| == DENSE_BYTES + 1 && j < REGISTERS && forall k :: 0 <= k < |r| ==> r[k] == 0
    ensures Get(r, j) == 0
  {}

  lemma NoRegisters(header: seq<byte>)
    requires |header| == HDR_SIZE && header[..4] == MAGIC && header[4] == DENSE
    ensures var str := header + ZeroBytes(DENSE_BYTES);
      Valid(str) && str[4] == DENSE && Filled(Regs(str), [])
  {
    hide Get;
    var str := header + ZeroBytes(DENSE_BYTES);
    assert str[..4] == header[..4];
    assert forall k :: 0 <= k <= DENSE_BYTES ==> Packed(str)[k] == 0;
    forall j | 0 <= j < REGISTERS ensures Get(Packed(str), j) == 0 {
      ZeroRegister(Packed(str), j);
    }
  }

  /** The first registers are those of `front`, the others 0. */
  ghost predicate Filled(regs: seq<nat>, front: seq<nat>) {
    && |front| <= |regs|
    && (forall i :: 0 <= i < |front| ==> regs[i] == front[i])
    && forall i :: |front| <= i < |regs| ==> regs[i] == 0
  }

  lemma FilledZeros(regs: seq<nat>, front: seq<nat>, n: nat)
    requires Filled(regs, front) && |front| + n <= |regs|
    ensures Filled(regs, front + Repeat(0, n))
  {}

  lemma FilledOne(regs: seq<nat>, front: seq<nat>, v: nat, n: nat)
    requires Filled(regs, front + Repeat(v, n)) && |front| + n < |regs|
    ensures Filled(regs[|front| + n := v], front + Repeat(v, n + 1))
  {}

  lemma FilledAll(regs: seq<nat>, front: seq<nat>)
    requires Filled(regs, front) && |front| == |regs|
    ensures regs == front
  {}

  lemma NextFits(code: seq<byte>, p: nat)
    requires Parses(code) && p < |code| && Parses(code[..p]) && |Expand(code)| <= REGISTERS && Whole(code[p..])
    ensures |Expand(code[..p])| + OpSpan(code[p..]) <= REGISTERS
  {
    NextCut(code, p);
    CutAt(code, p + OpLen(code[p..]));
  }

  /** One run of a value, register by register. */
  method SetRun(str: seq<byte>, idx: nat, len: nat, v: nat, ghost front: seq<nat>) returns (out: seq<byte>)
    requires Valid(str) && str[4] == DENSE && idx == |front| && idx + len <= REGISTERS && v < 64
    requires Filled(Regs(str), front)
    ensures Valid(out) && out[4] == DENSE && Filled(Regs(out), front + Repeat(v, len))
    ensures |str| == |out| == DENSE_SIZE && out[..16] == str[..16]
  {
    hide *;
    out := str;
    NothingFilled(str, front, v);
    for k := 0 to len
      invariant |out| == DENSE_SIZE == |str| && RunFilled(out, front, v, k)
      invariant 16 <= |out| == |str| && out[..16] == str[..16]
    {
      RunStep(out, front, v, k);
      out := SetIn(out, idx + k, v);
    }
    RunDone(out, front, v, len);
  }

  /** `front` and `k` registers of a run are filled in. */
  ghost predicate RunFilled(str: seq<byte>, front: seq<nat>, v: nat, k: nat) {
    Valid(str) && str[4] == DENSE && Filled(Regs(str), front + Repeat(v, k))
  }

  lemma NothingFilled(str: seq<byte>, front: seq<nat>, v: nat)
    requires Valid(str) && str[4] == DENSE && Filled(Regs(str), front)
    ensures |str| == DENSE_SIZE == 12304 && RunFilled(str, front, v, 0)
  {
    assert front + Repeat(v, 0) == front;
  }

  lemma RunStep(str: seq<byte>, front: seq<nat>, v: nat, k: nat)
    requires RunFilled(str, front, v, k) && |str| == DENSE_SIZE && |front| + k < REGISTERS && v < 64
    ensures RunFilled(SetIn(str, |front| + k, v), front, v, k + 1)
  {
    hide Valid, Regs, SetIn, Filled, Repeat;
    SetInRegister(str, |front| + k, v);
    FilledOne(Regs(str), front, v, k);
  }

  lemma RunDone(str: seq<byte>, front: seq<nat>, v: nat, k: nat)
    requires RunFilled(str, front, v, k)
    ensures Valid(str) && str[4] == DENSE && Filled(Regs(str), front + Repeat(v, k))
  {}

  /** What a valid object holds, by its form. */
  lemma OneForm(str: seq<byte>)
    requires IsObject(str)
    ensures str[4] == DENSE ==> Valid(str)
    ensures str[4] == SPARSE ==> (Valid(str) <==> ValidCode(str[HDR_SIZE..]))
    ensures str[4] == SPARSE && Valid(str) ==> Regs(str) == Expand(str[HDR_SIZE..])
    ensures Valid(str) ==> |Regs(str)| == REGISTERS
  {
    hide Parses, Expand;
  }

  /** Unpacks a code into packed registers. A code that runs past the last
      register would make the source write past its buffer. */
  method SparseToDense(str: seq<byte>) returns (ok: bool, out: seq<byte>)
    requires IsObject(str)
    requires str[4] == SPARSE ==> Parses(str[HDR_SIZE..]) && |Expand(str[HDR_SIZE..])| <= REGISTERS
    ensures ok <==> Valid(str)
    ensures ok ==> Valid(out) && out[4] == DENSE && Regs(out) == Regs(str) && SameHeader(str, out)
    ensures !ok ==> out == str
  {
    hide Expand, Parses, Regs, Filled, Repeat;
    OneForm(str);
    if str[4] == DENSE {
      return true, str;
    }
    var code := str[HDR_SIZE..];
    var header := Recoded(str, DENSE);
    var dense := header + ZeroBytes(DENSE_BYTES);
    NoRegisters(header);
    assert dense[..16] == header;
    NoCode();
    var idx, p: nat := 0, 0;
    assert code[..0] == [];
    while p < |code|
      invariant p <= |code| && Parses(code[..p]) && idx == |Expand(code[..p])| <= REGISTERS
      invariant Valid(dense) && dense[4] == DENSE && Filled(Regs(dense), Expand(code[..p]))
      invariant |dense| == DENSE_SIZE && dense[..16] == header
    {
      CutAt(code, p);
      NextCut(code, p);
      NextFits(code, p);
      if IsZero(code[p]) {
        FilledZeros(Regs(dense), Expand(code[..p]), OpSpan(code[p..]));
        idx := idx + ZeroLen(code[p]);
        p := p + 1;
      } else if IsXZero(code[p]) {
        FilledZeros(Regs(dense), Expand(code[..p]), OpSpan(code[p..]));
        idx := idx + XZeroLen(code[p], code[p + 1]);
        p := p + 2;
      } else {
        dense := SetRun(dense, idx, ValLen(code[p]), ValValue(code[p]), Expand(code[..p]));
        idx := idx + ValLen(code[p]);
        p := p + 1;
      }
    }
    assert code[..p] == code;
    if idx != REGISTERS {
      return false, str;
    }
    FilledAll(Regs(dense), Expand(code));
    HeaderKept(str, header, dense);
    return true, dense;
  }

  /** What replaces the opcode at `p`, if the register it covers at `index` has
      to be raised. */
  method Replacement(code: seq<byte>, p: nat, first: nat, index: nat, count: nat) returns (n: Option<seq<byte>>)
    requires p < |code| && Parses(code[p..]) && Whole(code[p..])
    requires first <= index < first + OpSpan(code[p..]) && 1 <= count <= VAL_MAX_VALUE
    ensures n.None? <==> OpValue(code[p..]) >= count
    ensures n.Some? ==>
      Parses(n.value) && Expand(n.value) == Repeat(OpValue(code[p..]), OpSpan(code[p..]))[index - first := count]
    ensures n.Some? ==> |n.value| <= 5
  {
    hide Expand, Parses;
    var op := code[p..];
    if IsVal(code[p]) {
      if ValValue(code[p]) >= count {
        return None;
      }
      if ValLen(code[p]) == 1 {
        OneRegister(ValValue(code[p]), count);
        return Some([Val(count, 1)]);
      }
    }
    if IsZero(code[p]) && ZeroLen(code[p]) == 1 {
      OneRegister(0, count);
      return Some([Val(count, 1)]);
    }
    var last := first + OpSpan(op) - 1;
    var seq5 := SplitRun(OpValue(op), index - first, last - index, count);
    return Some(seq5);
  }

  lemma OneRegister(v: nat, count: nat)
    requires 1 <= count <= VAL_MAX_VALUE
    ensures Parses([Val(count, 1)]) && Expand([Val(count, 1)]) == Repeat(v, 1)[0 := count]
  {
    ExpandRun([Val(count, 1)], count, 1);
  }

  /** The code with an opcode replaced, and equal neighbours joined. */
  method Substitute(code: seq<byte>, p: nat, first: nat, prev: nat, n: seq<byte>, ghost index: nat, ghost count: nat)
    returns (out: seq<byte>)
    requires Parses(code) && p < |code| && prev <= p && Parses(code[..prev]) && Parses(code[..p])
    requires Parses(code[p..]) && Whole(code[p..]) && first == |Expand(code[..p])|
    requires first <= index < first + OpSpan(code[p..])
    requires Parses(n) && Expand(n) == Repeat(OpValue(code[p..]), OpSpan(code[p..]))[index - first := count]
    ensures Parses(out) && index < |Expand(code)| && Expand(out) == Expand(code)[index := count]
    ensures |out| <= |code| + |n| - OpLen(code[p..])
    ensures SomeFit(code[..p] + n + code[p + OpLen(code[p..])..], prev, 5) ==> |out| < |code| + |n| - OpLen(code[p..])
  {
    hide Expand, Parses;
    Spliced(code, p, n, first, index, count);
    var t := code[..p] + n + code[p + OpLen(code[p..])..];
    assert t[..prev] == code[..prev];
    out := MergeValues(t, prev);
  }

  /** `out` is `str` with one register raised, as a code or packed. */
  ghost predicate RaisedFrom(str: seq<byte>, out: seq<byte>, index: nat, count: nat)
    requires |str| >= HDR_SIZE && Parses(str[HDR_SIZE..])
  {
    var regs := Expand(str[HDR_SIZE..]);
    && IsObject(out) && index < |regs|
    && if out[4] == SPARSE then
      Parses(out[HDR_SIZE..]) && Expand(out[HDR_SIZE..]) == Raised(regs, index, count)
    else
      Valid(out) && Regs(out) == Raised(regs, index, count)
  }

  /** For a valid object that is what it should be. */
  lemma RaisedValid(str: seq<byte>, out: seq<byte>, index: nat, count: nat)
    requires Valid(str) && str[4] == SPARSE && RaisedFrom(str, out, index, count)
    ensures Valid(out) && index < REGISTERS && Regs(out) == Raised(Regs(str), index, count)
  {
    hide Expand, Parses;
  }

  lemma NotRaised(str: seq<byte>, index: nat, count: nat)
    requires IsObject(str) && str[4] == SPARSE && Parses(str[HDR_SIZE..]) && index < |Expand(str[HDR_SIZE..])|
    requires count <= Expand(str[HDR_SIZE..])[index]
    ensures RaisedFrom(str, str, index, count)
  {
    hide Expand, Parses;
  }

  /** Behind its header an object gets another code, and its cached cardinality
      becomes stale. */
  lemma NewCode(str: seq<byte>, code: seq<byte>, index: nat, count: nat)
    requires IsObject(str) && str[4] == SPARSE && Parses(str[HDR_SIZE..]) && index < |Expand(str[HDR_SIZE..])|
    requires Parses(code) && Expand(code) == Expand(str[HDR_SIZE..])[index := count]
    requires count > Expand(str[HDR_SIZE..])[index]
    ensures RaisedFrom(str, Invalidated(str[..HDR_SIZE] + code), index, count)
    ensures SameHeader(str, Invalidated(str[..HDR_SIZE] + code))
  {
    hide Expand, Parses;
    var out := Invalidated(str[..HDR_SIZE] + code);
    assert out[..4] == str[..4] && out[HDR_SIZE..] == code;
  }

  /** Raises a register of a code in place, or promotes the object to the packed
      form if the value or the code would get too big. The code may be too short
      or too long in all, as long as it covers the register; promotion refuses one
      that is too short. */
  method SparseAdd(str: seq<byte>, index: nat, count: nat) returns (r: int, out: seq<byte>)
    requires IsObject(str) && str[4] == SPARSE && index < REGISTERS && 1 <= count < 64
    requires Parses(str[HDR_SIZE..])
    requires count > VAL_MAX_VALUE || str[HDR_SIZE..] == [] || index < |Expand(str[HDR_SIZE..])|
    requires |Expand(str[HDR_SIZE..])| <= REGISTERS || (count <= VAL_MAX_VALUE && |str| + 4 <= SPARSE_MAX_BYTES)
    ensures r == -1 ==> out == str && |Expand(str[HDR_SIZE..])| < REGISTERS
    ensures r == -1 ==> str[HDR_SIZE..] == [] || count > VAL_MAX_VALUE || |str| + 4 > SPARSE_MAX_BYTES
    ensures str[HDR_SIZE..] == [] ==> r == -1
    ensures r != -1 ==> RaisedFrom(str, out, index, count)
    ensures r != -1 ==> index < |Expand(str[HDR_SIZE..])|
    ensures r != -1 ==> r == if count > Expand(str[HDR_SIZE..])[index] then 1 else 0
    ensures r == 0 ==> out == str
    ensures |out| > 4 && out[4] == SPARSE ==> |out| <= Max(|str|, 3000)
    ensures r == 1 && count <= 32 && |str| + 4 <= 3000 ==> out[4] == SPARSE
    ensures r == 1 && count > 32 ==> out[4] == DENSE
    ensures SameHeader(str, out)
    ensures Valid(str) ==> Valid(out) && Regs(out) == Raised(Regs(str), index, count)
    ensures Valid(str) ==> r == if count > Regs(str)[index] then 1 else 0
  {
    hide Expand, Parses, Registers, RaisedFrom;
    OneForm(str);
    NoCode();
    var code := str[HDR_SIZE..];
    if count > VAL_MAX_VALUE {
      if index < |Expand(code)| {
        ExpandSmall(code, index);
      }
      r, out := Promote(str, index, count);
      return;
    }
    if code == [] {
      return -1, str;
    }
    var p, first, prev := FindOpcode(code, index);
    RegisterAt(code, p, first, index);
    var n := Replacement(code, p, first, index, count);
    if n == None {
      NotRaised(str, index, count);
      NothingRaised(str, index, count);
      return 0, str;
    }
    var delta := |n.value| - OpLen(code[p..]);
    if delta > 0 && |str| + delta > SPARSE_MAX_BYTES {
      r, out := Promote(str, index, count);
      return;
    }
    code := Substitute(code, p, first, prev, n.value, index, count);
    NewCode(str, code, index, count);
    out := Invalidated(str[..HDR_SIZE] + code);
    if Valid(str) {
      RaisedValid(str, out, index, count);
    }
    r := 1;
  }

  lemma NothingRaised(str: seq<byte>, index: nat, count: nat)
    ensures Valid(str) && index < REGISTERS && count <= Regs(str)[index] ==>
      Regs(str) == Raised(Regs(str), index, count)
  {
    hide Valid, Regs;
  }

  /** The value of an opcode is that of every register it covers. */
  lemma RegisterAt(code: seq<byte>, p: nat, first: nat, index: nat)
    requires Parses(code) && p < |code| && Parses(code[..p]) && Parses(code[p..]) && Whole(code[p..])
    requires first == |Expand(code[..p])| && first <= index < first + OpSpan(code[p..])
    ensures index < |Expand(code)| && Expand(code)[index] == OpValue(code[p..])
  {
    hide Expand, Parses;
    NextCut(code, p);
    CutAt(code, p + OpLen(code[p..]));
  }

  /** The packed form, if the code is valid, with one register raised. */
  method Promote(str: seq<byte>, index: nat, count: nat) returns (r: int, out: seq<byte>)
    requires IsObject(str) && str[4] == SPARSE && index < REGISTERS && count < 64
    requires Parses(str[HDR_SIZE..]) && |Expand(str[HDR_SIZE..])| <= REGISTERS
    ensures r == -1 <==> |Expand(str[HDR_SIZE..])| < REGISTERS
    ensures r == -1 ==> out == str
    ensures r != -1 ==> Valid(str) && RaisedFrom(str, out, index, count) && out[4] == DENSE && SameHeader(str, out)
    ensures r != -1 ==> r == if count > Expand(str[HDR_SIZE..])[index] then 1 else 0
    ensures r != -1 ==> Valid(out) && Regs(out) == Raised(Regs(str), index, count)
  {
    hide Expand, Parses, Registers;
    OneForm(str);
    var ok, dense := SparseToDense(str);
    if !ok {
      return -1, str;
    }
    r, out := DenseAdd(dense, index, count);
    HeaderKept(str, dense, out);
  }

  /** An empty object, as a code. */
  method CreateObject() returns (str: seq<byte>)
    ensures Valid(str) && str[4] == SPARSE && Regs(str) == Repeat(0, REGISTERS)
    ensures str == [0x48, 0x59, 0x4C, 0x4C, 1] + ZeroBytes(11) + [0x7F, 0xFF]
  {
    hide Expand, Parses, Repeat;
    var header := MAGIC + [SPARSE] + ZeroBytes(11);
    str := header;
    var aux := REGISTERS;
    while aux > 0
      invariant str == if aux == 0 then header + [0x7F, 0xFF] else header
      invariant aux == REGISTERS || aux == 0
    {
      var xzero := if REGISTERS > aux then aux else REGISTERS;
      str := str + Zeros(xzero);
      aux := aux - xzero;
    }
    NewObject(header);
  }

  /** One XZERO opcode stands for all registers. */
  lemma NewObject(header: seq<byte>)
    requires header == MAGIC + [SPARSE] + ZeroBytes(11)
    ensures var str := header + [0x7F, 0xFF];
      Valid(str) && str[4] == SPARSE && Regs(str) == Repeat(0, REGISTERS)
  {
    hide Expand, Parses, Repeat;
    var str := header + [0x7F, 0xFF];
    ExpandRun(Zeros(REGISTERS), 0, REGISTERS);
    assert str[..4] == MAGIC && str[HDR_SIZE..] == Zeros(REGISTERS);
  }

  /** Adds an element, whatever the form of the object. */
  method AddElement(str: seq<byte>, index: nat, count: nat) returns (r: int, out: seq<byte>)
    requires Valid(str) && index < REGISTERS && 1 <= count < 64
    ensures Valid(out) && Regs(out) == Raised(Regs(str), index, count) && SameHeader(str, out)
    ensures r == if count > Regs(str)[index] then 1 else 0
    ensures r == 0 ==> out == str
  {
    if str[4] == DENSE {
      r, out := DenseAdd(str, index, count);
      HeaderKept(str, str, out);
    } else {
      r, out := SparseAdd(str, index, count);
    }
  }

  /** The registers after a number of elements. */
  ghost function AfterAll(hash: Hash, regs: seq<nat>, eles: seq<seq<byte>>): (s: seq<nat>)
    requires |regs| == REGISTERS
    ensures |s| == REGISTERS
  {
    if eles == [] then regs
    else
      var last := hash(eles[|eles| - 1]);
      Raised(AfterAll(hash, regs, eles[..|eles| - 1]), IndexOf(last), CountOf(last))
  }

  /** Every register ends as the largest of what it was and what the elements
      that hash to it bring. */
  lemma {:induction false} AfterAllIsMax(hash: Hash, regs: seq<nat>, eles: seq<seq<byte>>, j: nat)
    requires |regs| == REGISTERS && j < REGISTERS
    ensures regs[j] <= AfterAll(hash, regs, eles)[j]
    ensures forall e :: e in eles && hash(e) % 16384 == j ==> CountOf(hash(e)) <= AfterAll(hash, regs, eles)[j]
    ensures AfterAll(hash, regs, eles)[j] == regs[j]
      || exists e :: e in eles && hash(e) % 16384 == j && CountOf(hash(e)) == AfterAll(hash, regs, eles)[j]
    decreases |eles|
  {
    if eles != [] {
      var n := |eles| - 1;
      AfterAllIsMax(hash, regs, eles[..n], j);
      assert eles == eles[..n] + [eles[n]];
      assert eles[n] in eles;
    }
  }

  lemma Within49(bits: nat, zeros: nat)
    requires StartsWith(bits, zeros)
    ensures zeros <= 49
  {}

  /** One element, added to nothing, raises the register of its low bits to one
      more than the zeros that follow them, and no other. */
  lemma FirstElement(hash: Hash, e: seq<byte>, i: nat, bits: nat, zeros: nat)
    requires hash(e) == bits * 16384 + i && i < 16384 && StartsWith(bits, zeros)
    ensures AfterAll(hash, Repeat(0, 16384), [e]) == Repeat(0, 16384)[i := zeros + 1]
  {
    hide IndexOf, CountOf, Run, StartsWith;
    Within49(bits, zeros);
    HashParts(bits, i);
    CountOfZeros(hash(e), bits, zeros);
    assert [e][..0] == [];
    assert AfterAll(hash, Repeat(0, 16384), [e][..0]) == Repeat(0, 16384);
  }

  /** Adds elements to an object, or to a new one; says whether anything changed. */
  method PfAdd(hash: Hash, str: Option<seq<byte>>, eles: seq<seq<byte>>) returns (r: int, out: seq<byte>)
    requires str.Some? && IsObject(str.value) ==> Valid(str.value)
    ensures str.Some? && !IsObject(str.value) ==> r == -1 && out == str.value
    ensures r == -1 <==> str.Some? && !LooksRight(str.value)
    ensures str.Some? && IsObject(str.value) ==>
      Valid(out) && Regs(out) == AfterAll(hash, Regs(str.value), eles) &&
        r == if Regs(out) == Regs(str.value) then 0 else 1
    ensures str.Some? && r == 0 ==> out == str.value
    ensures str.None? ==> r == 1 && Valid(out) && Regs(out) == AfterAll(hash, Repeat(0, REGISTERS), eles)
    ensures r == 1 ==> |out| >= HDR_SIZE && out[15] >= 128
    ensures str.Some? && r == 1 ==> SameHeader(str.value, out)
  {
    hide Expand, Parses, Registers;
    var updated := 0;
    if str.None? {
      out := CreateObject();
      updated := 1;
    } else {
      out := str.value;
      if !IsObject(out) {
        return -1, out;
      }
    }
    ghost var start := out;
    var grown;
    grown, out := AddAll(hash, out, eles);
    updated := updated + grown;
    if updated > 0 {
      InvalidatedSame(out);
      ObjectSize(out);
      HeaderKept(start, out, Invalidated(out));
      out := Invalidated(out);
    }
    r := if updated > 0 then 1 else 0;
  }

  /** Adds one element after the other, counting those that raised a register. */
  method AddAll(hash: Hash, str: seq<byte>, eles: seq<seq<byte>>) returns (updated: nat, out: seq<byte>)
    requires Valid(str)
    ensures Valid(out) && Regs(out) == AfterAll(hash, Regs(str), eles) && SameHeader(str, out)
    ensures updated == 0 <==> Regs(out) == Regs(str)
    ensures updated == 0 ==> out == str
  {
    hide Valid, Regs, Raised, CountOf, IndexOf;
    ObjectSize(str);
    updated, out := 0, str;
    for j := 0 to |eles|
      invariant Valid(out) && Regs(out) == AfterAll(hash, Regs(str), eles[..j]) && Above(Regs(str), Regs(out))
      invariant SameHeader(str, out)
      invariant updated == 0 <==> Regs(out) == Regs(str)
      invariant updated == 0 ==> out == str
    {
      assert eles[..j + 1][..j] == eles[..j];
      var index, count := PatLen(hash, eles[j]);
      RaisedAbove(Regs(str), Regs(out), index, count);
      var retval;
      retval, out := AddElement(out, index, count);
      if retval == 1 {
        updated := updated + 1;
      }
    }
    assert eles[..|eles|] == eles;
  }

  lemma ObjectSize(str: seq<byte>)
    requires Valid(str)
    ensures |str| >= HDR_SIZE
  {}

  ghost predicate Above(start: seq<nat>, regs: seq<nat>) {
    |regs| == |start| && forall j :: 0 <= j < |start| ==> start[j] <= regs[j]
  }

  /** Registers only grow, so once one has they are not what they were. */
  lemma RaisedAbove(start: seq<nat>, regs: seq<nat>, index: nat, count: nat)
    requires Above(start, regs) && index < |regs|
    ensures Above(start, Raised(regs, index, count))
    ensures count > regs[index] ==> Raised(regs, index, count) != start
    ensures count <= regs[index] ==> Raised(regs, index, count) == regs
  {
    if count > regs[index] {
      assert Raised(regs, index, count)[index] > start[index];
    }
  }

  // ---- Merging

  /** The larger of two registers, place by place. */
  ghost function MaxOf(a: seq<nat>, b: seq<nat>): (s: seq<nat>)
    requires |a| == |b|
    ensures |s| == |a| && forall i :: 0 <= i < |a| ==> s[i] == Max(a[i], b[i])
  {
    seq(|a|, i requires 0 <= i < |a| => Max(a[i], b[i]))
  }

  /** Merges an object into an array of registers, whatever its form. */
  method MergeInto(max: array<nat>, str: seq<byte>) returns (ok: bool)
    requires max.Length == REGISTERS && IsObject(str)
    requires str[4] == SPARSE ==> Parses(str[HDR_SIZE..]) && |Expand(str[HDR_SIZE..])| <= REGISTERS
    modifies max
    ensures ok <==> Valid(str)
    ensures ok ==> max[..] == MaxOf(old(max[..]), Regs(str))
  {
    if str[4] == DENSE {
      MergePacked(max, Packed(str));
      return true;
    }
    ok := MergeCode(max, str[HDR_SIZE..]);
  }

  method MergePacked(max: array<nat>, r: seq<byte>)
    requires max.Length == REGISTERS && |r| == DENSE_BYTES + 1
    modifies max
    ensures max[..] == MaxOf(old(max[..]), Registers(r))
  {
    for i := 0 to REGISTERS
      invariant forall j :: 0 <= j < i ==> max[j] == Max(old(max[j]), Get(r, j))
      invariant forall j :: i <= j < REGISTERS ==> max[j] == old(max[j])
    {
      var val := Get(r, i);
      if val > max[i] {
        max[i] := val;
      }
    }
  }

  /** The first registers merged with `front`, the others as they were. */
  ghost predicate MergedTo(was: seq<nat>, now: seq<nat>, front: seq<nat>) {
    && |was| == |now| >= |front|
    && (forall j :: 0 <= j < |front| ==> now[j] == Max(was[j], front[j]))
    && forall j :: |front| <= j < |was| ==> now[j] == was[j]
  }

  method MergeCode(max: array<nat>, code: seq<byte>) returns (ok: bool)
    requires max.Length == REGISTERS && Parses(code) && |Expand(code)| <= REGISTERS
    modifies max
    ensures ok <==> ValidCode(code)
    ensures ok ==> max[..] == MaxOf(old(max[..]), Expand(code))
  {
    hide ValLen, Repeat;
    ghost var was := max[..];
    var i, p: nat := 0, 0;
    assert code[..0] == [];
    while p < |code|
      invariant p <= |code| && Parses(code[..p]) && i == |Expand(code[..p])| <= REGISTERS
      invariant MergedTo(was, max[..], Expand(code[..p]))
    {
      CutAt(code, p);
      NextCut(code, p);
      NextFits(code, p);
      if IsZero(code[p]) {
        MergedZeros(was, max[..], Expand(code[..p]), OpSpan(code[p..]));
        i := i + ZeroLen(code[p]);
        p := p + 1;
      } else if IsXZero(code[p]) {
        MergedZeros(was, max[..], Expand(code[..p]), OpSpan(code[p..]));
        i := i + XZeroLen(code[p], code[p + 1]);
        p := p + 2;
      } else {
        MergeRun(max, i, ValLen(code[p]), ValValue(code[p]), was, Expand(code[..p]));
        i := i + ValLen(code[p]);
        p := p + 1;
      }
    }
    assert code[..p] == code;
    return i == REGISTERS;
  }

  lemma MergedZeros(was: seq<nat>, now: seq<nat>, front: seq<nat>, n: nat)
    requires MergedTo(was, now, front) && |front| + n <= |was|
    ensures MergedTo(was, now, front + Repeat(0, n))
  {}

  method MergeRun(max: array<nat>, i: nat, len: nat, v: nat, ghost was: seq<nat>, ghost front: seq<nat>)
    requires i == |front| && i + len <= max.Length && MergedTo(was, max[..], front)
    modifies max
    ensures MergedTo(was, max[..], front + Repeat(v, len))
  {
    for k := 0 to len
      invariant forall j :: 0 <= j < i ==> max[j] == Max(was[j], front[j])
      invariant forall j :: i <= j < i + k ==> max[j] == Max(was[j], v)
      invariant forall j :: i + k <= j < max.Length ==> max[j] == was[j]
    {
      if v > max[i + k] {
        max[i + k] := v;
      }
    }
  }

  /** `s` is the maximum, place by place, of the registers of some objects. */
  ghost predicate IsMerge(args: seq<Option<seq<byte>>>, s: seq<nat>) {
    && |s| == REGISTERS
    && (forall i :: 0 <= i < |args| && args[i].Some? ==> Valid(args[i].value) && Above(Regs(args[i].value), s))
    && forall j :: 0 <= j < REGISTERS ==> s[j] == 0 || Reached(args, s[j], j)
  }

  ghost predicate Reached(args: seq<Option<seq<byte>>>, v: nat, j: nat) {
    exists i :: 0 <= i < |args| && HasRegister(args[i], v, j)
  }

  ghost predicate HasRegister(arg: Option<seq<byte>>, v: nat, j: nat) {
    arg.Some? && Valid(arg.value) && j < REGISTERS && Regs(arg.value)[j] == v
  }

  /** The merge depends on which registers occur among the objects, not on their
      order, their number or their form. */
  lemma MergeIndependent(a: seq<Option<seq<byte>>>, b: seq<Option<seq<byte>>>, s: seq<nat>, t: seq<nat>)
    requires IsMerge(a, s) && IsMerge(b, t)
    requires forall i :: 0 <= i < |a| && a[i].Some? ==> Among(a[i].value, b)
    requires forall i :: 0 <= i < |b| && b[i].Some? ==> Among(b[i].value, a)
    ensures s == t
  {
    forall j | 0 <= j < REGISTERS ensures s[j] == t[j] {
      MergeBelow(a, b, s, t, j);
      MergeBelow(b, a, t, s, j);
    }
  }

  /** Some object of `args` holds the same registers. */
  ghost predicate Among(str: seq<byte>, args: seq<Option<seq<byte>>>)
    requires Valid(str)
  {
    exists k :: 0 <= k < |args| && SameRegisters(str, args[k])
  }

  ghost predicate SameRegisters(str: seq<byte>, arg: Option<seq<byte>>)
    requires Valid(str)
  {
    arg.Some? && Valid(arg.value) && Regs(arg.value) == Regs(str)
  }

  lemma MergeBelow(a: seq<Option<seq<byte>>>, b: seq<Option<seq<byte>>>, s: seq<nat>, t: seq<nat>, j: nat)
    requires IsMerge(a, s) && IsMerge(b, t) && j < REGISTERS
    requires forall i :: 0 <= i < |a| && a[i].Some? ==> Among(a[i].value, b)
    ensures s[j] <= t[j]
  {
    if s[j] > 0 {
      var i :| 0 <= i < |a| && HasRegister(a[i], s[j], j);
      var k :| 0 <= k < |b| && SameRegisters(a[i].value, b[k]);
      assert Above(Regs(b[k].value), t);
    }
  }

  lemma MergeSkip(a: seq<Option<seq<byte>>>, s: seq<nat>)
    requires IsMerge(a, s)
    ensures IsMerge(a + [None], s)
  {
    var b := a + [None];
    forall j | 0 <= j < REGISTERS && s[j] != 0 ensures Reached(b, s[j], j) {
      var i :| 0 <= i < |a| && HasRegister(a[i], s[j], j);
      assert HasRegister(b[i], s[j], j);
    }
  }

  lemma MergeMore(a: seq<Option<seq<byte>>>, s: seq<nat>, str: seq<byte>)
    requires IsMerge(a, s) && Valid(str)
    ensures IsMerge(a + [Some(str)], MaxOf(s, Regs(str)))
  {
    var b, t := a + [Some(str)], MaxOf(s, Regs(str));
    hide Valid, Regs;
    forall j | 0 <= j < REGISTERS && t[j] != 0 ensures Reached(b, t[j], j) {
      if t[j] == Regs(str)[j] {
        assert HasRegister(b[|a|], t[j], j);
      } else {
        var i :| 0 <= i < |a| && HasRegister(a[i], s[j], j);
        assert HasRegister(b[i], t[j], j);
      }
    }
    forall i | 0 <= i < |b| && b[i].Some? ensures Valid(b[i].value) && Above(Regs(b[i].value), t) {
      if i < |a| {
        assert b[i] == a[i] && Above(Regs(a[i].value), s);
      }
    }
  }

  /** Every register fits six bits. */
  lemma RegsSmall(str: seq<byte>, j: nat)
    requires Valid(str) && j < REGISTERS
    ensures Regs(str)[j] < 64
  {
    if str[4] == SPARSE {
      ExpandSmall(str[HDR_SIZE..], j);
    }
  }

  lemma MergeSmall(a: seq<Option<seq<byte>>>, s: seq<nat>)
    requires IsMerge(a, s)
    ensures forall j :: 0 <= j < REGISTERS ==> s[j] < 64
  {
    forall j | 0 <= j < REGISTERS ensures s[j] < 64 {
      if s[j] != 0 {
        var i :| 0 <= i < |a| && HasRegister(a[i], s[j], j);
        RegsSmall(a[i].value, j);
      }
    }
  }

  /** Writes all registers of a packed object. */
  method WriteRegisters(str: seq<byte>, max: array<nat>) returns (out: seq<byte>)
    requires Valid(str) && str[4] == DENSE && max.Length == REGISTERS
    requires forall j :: 0 <= j < REGISTERS ==> max[j] < 64
    ensures Valid(out) && out[4] == DENSE && Regs(out) == max[..]
    ensures |out| == |str| == DENSE_SIZE && out[..16] == str[..16]
  {
    hide Valid, Regs, Registers, SetIn;
    out := str;
    NothingWritten(out, max[..]);
    for j := 0 to REGISTERS
      invariant Written(out, max[..], j) && |out| == |str| == DENSE_SIZE && out[..16] == str[..16]
    {
      WriteNext(out, max[..], j);
      out := SetIn(out, j, max[j]);
    }
    AllWritten(out, max[..]);
  }

  ghost predicate Written(str: seq<byte>, s: seq<nat>, n: nat) {
    |s| == REGISTERS && Valid(str) && |str| == DENSE_SIZE && str[4] == DENSE
    && forall j :: 0 <= j < n && j < REGISTERS ==> Regs(str)[j] == s[j]
  }

  lemma NothingWritten(str: seq<byte>, s: seq<nat>)
    requires |s| == REGISTERS && Valid(str) && str[4] == DENSE
    ensures |str| == DENSE_SIZE && Written(str, s, 0)
  {}

  lemma WriteNext(str: seq<byte>, s: seq<nat>, n: nat)
    requires Written(str, s, n) && n < REGISTERS && s[n] < 64
    ensures Written(SetIn(str, n, s[n]), s, n + 1)
  {
    SetInRegister(str, n, s[n]);
  }

  lemma AllWritten(str: seq<byte>, s: seq<nat>)
    requires Written(str, s, REGISTERS)
    ensures Valid(str) && str[4] == DENSE && Regs(str) == s
  {}

  lemma NothingMerged(s: seq<nat>)
    requires |s| == REGISTERS && forall j :: 0 <= j < REGISTERS ==> s[j] == 0
    ensures IsMerge([], s)
  {}

  /** All objects merged into an array, unless one of them is not valid. */
  method MergeAll(args: seq<Option<seq<byte>>>) returns (ok: bool, max: array<nat>)
    requires forall i :: 0 <= i < |args| && args[i].Some? ==> RunsWithin(args[i].value)
    ensures fresh(max) && max.Length == REGISTERS
    ensures !ok <==> exists i :: 0 <= i < |args| && args[i].Some? && !Valid(args[i].value)
    ensures ok ==> IsMerge(args, max[..])
  {
    hide Valid, Regs, RunsWithin, IsMerge, LooksRight;
    ok := true;
    max := new nat[REGISTERS](_ => 0);
    assert args[..0] == [];
    NothingMerged(max[..]);
    for j := 0 to |args|
      invariant forall i :: 0 <= i < j && args[i].Some? ==> Valid(args[i].value)
      invariant IsMerge(args[..j], max[..])
    {
      assert args[..j + 1] == args[..j] + [args[j]];
      if args[j].None? {
        MergeSkip(args[..j], max[..]);
        continue;
      }
      var str := args[j].value;
      InvalidIs(str);
      if !IsObject(str) {
        return false, max;
      }
      ghost var was := max[..];
      var merged := MergeInto(max, str);
      if !merged {
        return false, max;
      }
      MergeMore(args[..j], was, str);
    }
    assert args[..|args|] == args;
  }

  /** A code, if the string holds one, does not run past the last register. */
  ghost predicate RunsWithin(str: seq<byte>) {
    IsObject(str) && str[4] == SPARSE ==> Parses(str[HDR_SIZE..]) && |Expand(str[HDR_SIZE..])| <= REGISTERS
  }

  lemma InvalidIs(str: seq<byte>)
    requires RunsWithin(str)
    ensures Valid(str) ==> IsObject(str)
    ensures IsObject(str) && str[4] == SPARSE ==> Parses(str[HDR_SIZE..]) && |Expand(str[HDR_SIZE..])| <= REGISTERS
  {}

  /** Merges objects into a packed one. A code that runs past the last register
      would make the source write past its buffer. */
  method PfMerge(args: seq<Option<seq<byte>>>) returns (out: Option<seq<byte>>)
    requires forall i :: 0 <= i < |args| && args[i].Some? ==> RunsWithin(args[i].value)
    ensures out.None? <==> exists i :: 0 <= i < |args| && args[i].Some? && !Valid(args[i].value)
    ensures (exists i :: 0 <= i < |args| && args[i].Some? && !LooksRight(args[i].value)) ==> out.None?
    ensures out.Some? ==> Valid(out.value) && out.value[4] == DENSE && IsMerge(args, Regs(out.value))
    ensures out.Some? ==> |out.value| == 12304 && out.value[15] >= 128 && out.value[5..15] == ZeroBytes(10)
  {
    hide Expand, Parses, Regs, IsMerge, RunsWithin;
    var ok, max := MergeAll(args);
    if !ok {
      return None;
    }
    MergeSmall(args, max[..]);
    var str := CreateObject();
    var dense;
    ok, dense := SparseToDense(str);
    ghost var made := dense;
    dense := WriteRegisters(dense, max);
    HeaderKept(str, made, dense);
    HeaderKept(str, dense, Invalidated(dense));
    assert str[5..15] == ZeroBytes(10);
    InvalidatedSame(dense);
    out := Some(Invalidated(dense));
  }
}
