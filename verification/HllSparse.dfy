// The run-length code of a HyperLogLog: its opcodes and the registers they stand
// for, and how one opcode is split to raise one register.
module HllSparse {
  import opened BitWords
  import opened Bytes
  import opened HllDense

  const VAL_MAX_VALUE := 32
  const VAL_MAX_LEN := 4
  const ZERO_MAX_LEN := 64

  // ---- Opcodes

  predicate IsZero(b: byte) { b < 64 }

  predicate IsXZero(b: byte) { 64 <= b < 128 }

  predicate IsVal(b: byte) { b >= 128 }

  function ZeroLen(b: byte): nat { b % 64 + 1 }

  function XZeroLen(b: byte, c: byte): nat { b % 64 * 256 + c + 1 }

  function ValValue(b: byte): nat { b / 4 % 32 + 1 }

  function ValLen(b: byte): nat { b % 4 + 1 }

  function Val(val: nat, len: nat): (b: byte)
    requires 1 <= val <= VAL_MAX_VALUE && 1 <= len <= VAL_MAX_LEN
    ensures IsVal(b) && ValValue(b) == val && ValLen(b) == len
  {
    128 + (val - 1) * 4 + (len - 1)
  }

  /** A run of zeros in as few bytes as it takes. */
  function Zeros(len: nat): (c: seq<byte>)
    requires 1 <= len <= REGISTERS
    ensures len <= ZERO_MAX_LEN ==> |c| == 1 && IsZero(c[0]) && ZeroLen(c[0]) == len
    ensures len > ZERO_MAX_LEN ==> |c| == 2 && IsXZero(c[0]) && XZeroLen(c[0], c[1]) == len
  {
    if len > ZERO_MAX_LEN then [(len - 1) / 256 + 64, (len - 1) % 256] else [len - 1]
  }

  // ---- The masks of the source

  lemma OpcodeWords(w: bv16)
    requires w < 256
    ensures (w & 0xc0 == 0 <==> w / 64 == 0) && (w & 0xc0 == 0x40 <==> w / 64 == 1)
    ensures w & 0x80 == 0 <==> w / 64 < 2
    ensures w & 0x3f == w % 64 && w & 3 == w % 4
    ensures (w >> 2) & 0x1f == (w / 4) % 32
  {}

  /** The masks that tell opcodes apart, and those that read what they say. The
      second byte of an XZERO is joined below the first by a shift of eight bits. */
  lemma OpcodeByMask(w: bv16, c: byte)
    requires w < 256
    ensures IsZero(AsByte(w)) <==> w & 0xc0 == 0
    ensures IsXZero(AsByte(w)) <==> w & 0xc0 == 0x40
    ensures IsVal(AsByte(w)) <==> w & 0x80 != 0
    ensures ZeroLen(AsByte(w)) == (w & 0x3f) as int + 1
    ensures XZeroLen(AsByte(w), c) == (w & 0x3f) as int * 256 + c + 1
    ensures ValValue(AsByte(w)) == ((w >> 2) & 0x1f) as int + 1
    ensures ValLen(AsByte(w)) == (w & 3) as int + 1
  {
    OpcodeWords(w);
    SixtyFourths(w);
    Quarters(w);
    ThirtySeconds(w / 4);
  }

  lemma ValueWords(val: bv16, len: bv16)
    requires val < 32 && len < 4
    ensures ((val << 2) | len) | 0x80 < 256
    ensures (((val << 2) | len) | 0x80) % 4 == len
    ensures ((((val << 2) | len) | 0x80) / 4) % 32 == val
    ensures (((val << 2) | len) | 0x80) / 64 >= 2
  {}

  /** And those that write one, from a value and a length less one. */
  lemma ValueByMask(v: bv16, l: bv16)
    requires v < 32 && l < 4
    ensures v as int < VAL_MAX_VALUE && l as int < VAL_MAX_LEN
    ensures Val(v as int + 1, l as int + 1) == (((v << 2) | l) | 0x80) as int
  {
    ValueWords(v, l);
    var m := ((v << 2) | l) | 0x80;
    Quarters(m);
    SixtyFourths(m);
    ThirtySeconds(m / 4);
  }

  // ---- What a code stands for

  function OpLen(code: seq<byte>): nat
    requires code != []
  {
    if IsXZero(code[0]) then 2 else 1
  }

  /** The opcode in front is there as a whole. */
  predicate Whole(code: seq<byte>) {
    code != [] && OpLen(code) <= |code|
  }

  function OpSpan(code: seq<byte>): (n: nat)
    requires Whole(code)
    ensures n >= 1
  {
    if IsZero(code[0]) then ZeroLen(code[0])
    else if IsXZero(code[0]) then XZeroLen(code[0], code[1])
    else ValLen(code[0])
  }

  function OpValue(code: seq<byte>): (v: nat)
    requires code != []
    ensures v <= VAL_MAX_VALUE
  {
    if IsVal(code[0]) then ValValue(code[0]) else 0
  }

  ghost predicate Parses(code: seq<byte>) {
    code == [] || (Whole(code) && Parses(code[OpLen(code)..]))
  }

  ghost function Repeat(v: nat, n: nat): (s: seq<nat>)
    ensures |s| == n && forall i :: 0 <= i < n ==> s[i] == v
  {
    seq(n, _ => v)
  }

  /** The registers, run by run. */
  ghost function Expand(code: seq<byte>): seq<nat>
    requires Parses(code)
  {
    if code == [] then [] else Repeat(OpValue(code), OpSpan(code)) + Expand(code[OpLen(code)..])
  }

  ghost predicate ValidCode(code: seq<byte>) {
    Parses(code) && |Expand(code)| == REGISTERS
  }

  /** An opcode put in front of a code. */
  lemma ExpandFirst(code: seq<byte>)
    requires Whole(code) && Parses(code[OpLen(code)..])
    ensures Parses(code) && Expand(code) == Repeat(OpValue(code), OpSpan(code)) + Expand(code[OpLen(code)..])
  {}

  lemma Unfold(code: seq<byte>)
    requires Parses(code) && code != []
    ensures Whole(code) && 0 < OpLen(code) <= |code| && Parses(code[OpLen(code)..])
    ensures Expand(code) == Repeat(OpValue(code), OpSpan(code)) + Expand(code[OpLen(code)..])
  {}

  lemma NoCode()
    ensures Parses([]) && Expand([]) == []
  {}

  lemma SameFirst(a: seq<byte>, b: seq<byte>)
    requires Whole(a)
    ensures Whole(a + b) && OpLen(a + b) == OpLen(a) && OpValue(a + b) == OpValue(a) && OpSpan(a + b) == OpSpan(a)
    ensures (a + b)[OpLen(a)..] == a[OpLen(a)..] + b
  {}

  lemma {:induction false} ExpandJoin(a: seq<byte>, b: seq<byte>)
    requires Parses(a) && Parses(b)
    ensures Parses(a + b) && Expand(a + b) == Expand(a) + Expand(b)
    decreases |a|
  {
    hide Expand, Parses, OpLen, OpSpan, OpValue, Repeat, Whole;
    if a == [] {
      NoCode();
      assert a + b == b;
    } else {
      Unfold(a);
      SameFirst(a, b);
      ExpandJoin(a[OpLen(a)..], b);
      ExpandFirst(a + b);
    }
  }

  lemma ExpandJoin3(a: seq<byte>, b: seq<byte>, c: seq<byte>)
    requires Parses(a) && Parses(b) && Parses(c)
    ensures Parses(a + b + c) && Expand(a + b + c) == Expand(a) + Expand(b) + Expand(c)
  {
    ExpandJoin(a, b);
    ExpandJoin(a + b, c);
  }

  /** One opcode alone. */
  lemma ExpandOne(code: seq<byte>)
    requires Whole(code) && |code| == OpLen(code)
    ensures Parses(code) && Expand(code) == Repeat(OpValue(code), OpSpan(code))
  {
    assert code[OpLen(code)..] == [];
  }

  /** What follows the opcodes of `a` is a code of its own. */
  lemma {:induction false} Dropped(a: seq<byte>, b: seq<byte>)
    requires Parses(a) && Parses(a + b)
    ensures Parses(b) && Expand(a + b) == Expand(a) + Expand(b)
    decreases |a|
  {
    hide Expand, Parses, OpLen, OpSpan, OpValue, Repeat, Whole;
    if a == [] {
      NoCode();
      assert a + b == b;
    } else {
      Unfold(a);
      Unfold(a + b);
      SameFirst(a, b);
      Dropped(a[OpLen(a)..], b);
    }
  }

  /** Cutting a code before and after an opcode. */
  lemma CutAt(code: seq<byte>, p: nat)
    requires Parses(code) && p <= |code| && Parses(code[..p])
    ensures Parses(code[p..]) && Expand(code) == Expand(code[..p]) + Expand(code[p..])
  {
    hide Expand, Parses;
    assert code == code[..p] + code[p..];
    Dropped(code[..p], code[p..]);
  }

  /** The next opcode: where the code can be cut after it. */
  lemma NextCut(code: seq<byte>, p: nat)
    requires Parses(code) && p < |code| && Parses(code[..p])
    ensures Whole(code[p..]) && p + OpLen(code[p..]) <= |code| && Parses(code[..p + OpLen(code[p..])])
    ensures Expand(code[..p + OpLen(code[p..])]) == Expand(code[..p]) + Repeat(OpValue(code[p..]), OpSpan(code[p..]))
  {
    hide Parses, Expand, OpValue, OpSpan, OpLen, Repeat, Whole;
    CutAt(code, p);
    OneMore(code[..p], code[p..]);
    JoinSlices(code, p, p + OpLen(code[p..]));
  }

  lemma OneMore(a: seq<byte>, b: seq<byte>)
    requires Parses(a) && Parses(b) && b != []
    ensures Whole(b) && OpLen(b) <= |b| && Parses(a + b[..OpLen(b)])
    ensures Expand(a + b[..OpLen(b)]) == Expand(a) + Repeat(OpValue(b), OpSpan(b))
  {
    hide Parses, Expand, OpValue, OpSpan, OpLen, Repeat, Whole;
    Unfold(b);
    FirstOp(b);
    ExpandJoin(a, b[..OpLen(b)]);
  }

  /** The same for a value opcode. */
  lemma NextValue(code: seq<byte>, p: nat)
    requires Parses(code) && p < |code| && Parses(code[..p]) && IsVal(code[p])
    ensures Parses(code[..p + 1])
    ensures Expand(code[..p + 1]) == Expand(code[..p]) + Repeat(ValValue(code[p]), ValLen(code[p]))
  {
    hide Parses, Expand, Repeat;
    NextCut(code, p);
  }

  /** The first opcode, alone. */
  lemma FirstOp(code: seq<byte>)
    requires Whole(code)
    ensures Parses(code[..OpLen(code)])
    ensures Expand(code[..OpLen(code)]) == Repeat(OpValue(code), OpSpan(code))
  {
    var op := code[..OpLen(code)];
    assert OpValue(op) == OpValue(code) && OpSpan(op) == OpSpan(code);
    ExpandOne(op);
  }

  lemma JoinSlices(s: seq<byte>, i: nat, j: nat)
    requires i <= j <= |s|
    ensures s[..i] + s[i..][..j - i] == s[..j]
  {}

  /** No code stands for a register above the largest value. */
  lemma {:induction false} ExpandSmall(code: seq<byte>, i: nat)
    requires Parses(code) && i < |Expand(code)|
    ensures Expand(code)[i] <= VAL_MAX_VALUE
    decreases |code|
  {
    if code != [] && i >= OpSpan(code) {
      ExpandSmall(code[OpLen(code)..], i - OpSpan(code));
    }
  }

  // ---- Raising one register

  /** An opcode replaced by what stands for its run with one register raised. */
  lemma Spliced(code: seq<byte>, p: nat, n: seq<byte>, first: nat, index: nat, count: nat)
    requires Parses(code) && p < |code| && Parses(code[..p]) && first == |Expand(code[..p])|
    requires Parses(code[p..]) && Whole(code[p..]) && first <= index < first + OpSpan(code[p..])
    requires Parses(n) && Expand(n) == Repeat(OpValue(code[p..]), OpSpan(code[p..]))[index - first := count]
    ensures p + OpLen(code[p..]) <= |code| && index < |Expand(code)|
    ensures Expand(code)[index] == OpValue(code[p..])
    ensures var t := code[..p] + n + code[p + OpLen(code[p..])..];
      Parses(t) && Expand(t) == Expand(code)[index := count]
  {
    hide Expand, Parses, OpSpan, OpValue, OpLen, Repeat, Whole;
    NextCut(code, p);
    var e := p + OpLen(code[p..]);
    CutAt(code, e);
    ExpandJoin3(code[..p], n, code[e..]);
    Updated(Expand(code[..p]), Repeat(OpValue(code[p..]), OpSpan(code[p..])), Expand(code[e..]), index, count);
  }

  lemma Updated(a: seq<nat>, b: seq<nat>, c: seq<nat>, index: nat, count: nat)
    requires |a| <= index < |a| + |b|
    ensures (a + b + c)[index := count] == a + b[index - |a| := count] + c
    ensures (a + b + c)[index] == b[index - |a|]
  {}

  /** The run of an opcode, split around one register. */
  method SplitRun(value: nat, before: nat, after: nat, count: nat) returns (n: seq<byte>)
    requires value <= VAL_MAX_VALUE && 1 <= count <= VAL_MAX_VALUE
    requires before + 1 + after <= (if value == 0 then REGISTERS else VAL_MAX_LEN)
    ensures Parses(n) && Expand(n) == Repeat(value, before + 1 + after)[before := count]
    ensures |n| <= 5
  {
    hide Parses, Expand;
    NoCode();
    n := [];
    if before != 0 {
      n := if value == 0 then Zeros(before) else [Val(value, before)];
      ExpandRun(n, value, before);
    }
    ghost var m := n;
    ExpandRun([Val(count, 1)], count, 1);
    ExpandJoin(m, [Val(count, 1)]);
    n := n + [Val(count, 1)];
    ghost var k := n;
    if after != 0 {
      var tail := if value == 0 then Zeros(after) else [Val(value, after)];
      ExpandRun(tail, value, after);
      ExpandJoin(k, tail);
      n := n + tail;
    }
    assert Expand(n) == Repeat(value, before) + Repeat(count, 1) + Repeat(value, after);
  }

  lemma ExpandRun(n: seq<byte>, value: nat, len: nat)
    requires value <= VAL_MAX_VALUE && 1 <= len <= (if value == 0 then REGISTERS else VAL_MAX_LEN)
    requires n == if value == 0 then Zeros(len) else [Val(value, len)]
    ensures Parses(n) && Expand(n) == Repeat(value, len)
  {
    ExpandOne(n);
  }

  /** The opcode that covers a register, and the one before it. */
  method FindOpcode(code: seq<byte>, index: nat) returns (p: nat, first: nat, prev: nat)
    requires Parses(code) && index < |Expand(code)|
    ensures p < |code| && prev <= p && Parses(code[..prev]) && Parses(code[..p]) && Parses(code[p..]) &&
      Whole(code[p..])
    ensures first == |Expand(code[..p])| && first <= index < first + OpSpan(code[p..])
  {
    hide Expand, Parses;
    NoCode();
    p, first, prev := 0, 0, 0;
    assert code[..0] == [];
    while p < |code|
      invariant p <= |code| && prev <= p && Parses(code[..prev]) && Parses(code[..p])
      invariant first == |Expand(code[..p])| && first <= index
      invariant p == |code| ==> first == |Expand(code)|
    {
      CutAt(code, p);
      NextCut(code, p);
      WholeCode(code, p + OpLen(code[p..]));
      var span := OpSpan(code[p..]);
      if index < first + span {
        return;
      }
      prev := p;
      p := p + OpLen(code[p..]);
      first := first + span;
    }
    assert false;
  }

  lemma WholeCode(code: seq<byte>, p: nat)
    requires p <= |code|
    ensures p == |code| ==> code[..p] == code
  {}

  // ---- Merging neighbours

  /** Two value opcodes of one value joined into one. */
  lemma MergeTwo(code: seq<byte>, p: nat)
    requires Parses(code) && p + 1 < |code| && Parses(code[..p])
    requires IsVal(code[p]) && IsVal(code[p + 1]) && ValValue(code[p]) == ValValue(code[p + 1])
    requires ValLen(code[p]) + ValLen(code[p + 1]) <= VAL_MAX_LEN
    ensures var t := code[..p] + [Val(ValValue(code[p]), ValLen(code[p]) + ValLen(code[p + 1]))] + code[p + 2..];
      Parses(t) && Expand(t) == Expand(code)
  {
    hide Expand, Parses, Repeat, IsVal, ValValue, ValLen;
    var v, a, b := ValValue(code[p]), ValLen(code[p]), ValLen(code[p + 1]);
    ValueBounds(code[p], code[p + 1]);
    NextValue(code, p);
    NextValue(code, p + 1);
    CutAt(code, p + 2);
    ExpandRun([Val(v, a + b)], v, a + b);
    ExpandJoin3(code[..p], [Val(v, a + b)], code[p + 2..]);
    RepeatJoin(v, a, b);
    Regroup(Expand(code[..p]), Repeat(v, a), Repeat(v, b), Expand(code[p + 2..]));
  }

  lemma ValueBounds(b: byte, c: byte)
    ensures 1 <= ValValue(b) <= VAL_MAX_VALUE && ValLen(b) >= 1 && ValLen(c) >= 1
  {}

  lemma RepeatJoin(v: nat, a: nat, b: nat)
    ensures Repeat(v, a) + Repeat(v, b) == Repeat(v, a + b)
  {}

  lemma Regroup(a: seq<nat>, b: seq<nat>, c: seq<nat>, d: seq<nat>)
    ensures a + b + c + d == a + (b + c) + d
  {}

  /** The opcode at `p` and the next are values that fit into one. */
  predicate FitsNext(code: seq<byte>, p: nat) {
    && p + 1 < |code| && IsVal(code[p]) && IsVal(code[p + 1]) && ValValue(code[p]) == ValValue(code[p + 1])
    && ValLen(code[p]) + ValLen(code[p + 1]) <= VAL_MAX_LEN
  }

  /** So are one of `n` opcodes from `p` on and the one that follows it. */
  ghost predicate SomeFit(code: seq<byte>, p: nat, n: nat)
    decreases n
  {
    n > 0 && p < |code| && (FitsNext(code, p) || SomeFit(code, p + OpLen(code[p..]), n - 1))
  }

  /** Joins equal neighbours, looking at five opcodes from `start` on. */
  method MergeValues(was: seq<byte>, start: nat) returns (code: seq<byte>)
    requires Parses(was) && start <= |was| && Parses(was[..start])
    ensures Parses(code) && Expand(code) == Expand(was) && |code| <= |was|
    ensures |code| < |was| <==> SomeFit(was, start, 5)
  {
    hide Expand, Parses;
    code := was;
    var p: nat, scanLen := start, 5;
    while p < |code| && scanLen > 0
      invariant p <= |code| <= |was| && Parses(code) && Parses(code[..p]) && Expand(code) == Expand(was)
      invariant if |code| == |was| then code == was && SomeFit(was, start, 5) == SomeFit(was, p, scanLen)
                else SomeFit(was, start, 5)
      decreases scanLen
    {
      scanLen := scanLen - 1;
      NextCut(code, p);
      if IsXZero(code[p]) {
        p := p + 2;
        continue;
      } else if IsZero(code[p]) {
        p := p + 1;
        continue;
      }
      if p + 1 < |code| && IsVal(code[p + 1]) && ValValue(code[p]) == ValValue(code[p + 1]) {
        var len := ValLen(code[p]) + ValLen(code[p + 1]);
        if len <= VAL_MAX_LEN {
          MergeTwo(code, p);
          ghost var before := code;
          code := code[..p] + [Val(ValValue(code[p]), len)] + code[p + 2..];
          assert code[..p] == before[..p];
          continue;
        }
      }
      p := p + 1;
    }
  }
}
