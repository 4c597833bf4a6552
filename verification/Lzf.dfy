// LZF: the compressor with its uninitialised hash table, and the decompressor.
module Lzf {
  import opened Bytes

  const MAX_LIT := 32
  const MAX_OFF := 8192
  const MAX_REF := 264
  const HSIZE := 65536

  /** A slot of the hash table: a pointer, as its distance from the start of the
      input. The table is never initialised, so it can be anything. */
  type Slot = x: int | -0x8000_0000_0000_0000 <= x < 0x8000_0000_0000_0000

  datatype Error = TooBig | Invalid

  datatype Decoded = Decoded(bytes: seq<byte>) | Failed(error: Error)

  datatype Written = Written(n: nat) | NotWritten(error: Error)

  // ---- What a code means

  /** `len` more bytes, each a copy of the one `dist` before it; the copy may run
      into bytes it has itself produced. */
  ghost function CopyBack(bytes: seq<byte>, dist: nat, len: nat): (r: seq<byte>)
    requires 1 <= dist <= |bytes|
    ensures |r| == |bytes| + len && r[..|bytes|] == bytes
    decreases len
  {
    if len == 0 then bytes else CopyBack(bytes + [bytes[|bytes| - dist]], dist, len - 1)
  }

  /** One instruction of a code: a run of literal bytes or a back reference, and
      the place where the next one starts. */
  datatype Step = Literal(bytes: seq<byte>, next: nat) | Back(dist: nat, len: nat, next: nat) | Truncated

  ghost function StepAt(code: seq<byte>, i: nat): (s: Step)
    requires i < |code|
    ensures !s.Truncated? ==> i < s.next <= |code|
    ensures s.Back? ==> s.dist >= 1 && s.len >= 3
    ensures s.Literal? ==> |s.bytes| >= 1
  {
    var ctrl: nat := code[i];
    if ctrl < 32 then
      if i + ctrl + 2 > |code| then Truncated else Literal(code[i + 1..i + ctrl + 2], i + ctrl + 2)
    else if i + 1 >= |code| then Truncated
    else if ctrl / 32 == 7 then
      if i + 2 >= |code| then Truncated
      else Back(BackDist(ctrl, code[i + 2]), 7 + code[i + 1] as nat + 2, i + 3)
    else
      Back(BackDist(ctrl, code[i + 1]), ctrl / 32 + 2, i + 2)
  }

  ghost function BackDist(ctrl: nat, low: nat): nat {
    ctrl % 32 * 256 + low + 1
  }

  /** What the bits of an instruction mean: a control byte under 32 is one less
      than the number of bytes that follow; the upper three bits of any other are
      a length less two, up to 6, or say that the next byte holds what it has
      beyond 9; its lower five and the last byte are a distance less one. */
  lemma StepMeans(code: seq<byte>, i: nat, l: nat, h: nat)
    requires i < |code| && l < 8 && h < 32 && code[i] == l * 32 + h
    ensures l == 0 && i + h + 1 < |code| ==> StepAt(code, i) == Literal(code[i + 1..i + 1 + h + 1], i + h + 2)
    ensures 1 <= l <= 6 && i + 1 < |code| ==> StepAt(code, i) == Back(h * 256 + code[i + 1] + 1, l + 2, i + 2)
    ensures l == 7 && i + 2 < |code| ==>
      StepAt(code, i) == Back(h * 256 + code[i + 2] + 1, code[i + 1] as int + 9, i + 3)
    ensures StepAt(code, i) == Truncated <==> i + (if l == 0 then h + 1 else if l == 7 then 2 else 1) >= |code|
  {}

  /** The bytes a code stands for from place `i` on, given what it has produced
      so far and the room there is for all of it. */
  ghost function DecodeFrom(code: seq<byte>, i: nat, bytes: seq<byte>, room: nat): Decoded
    decreases |code| - i
  {
    if i >= |code| then Decoded(bytes)
    else
      match StepAt(code, i)
      case Truncated =>
        // the room for a literal run is checked before its length is
        if code[i] < 32 && |bytes| + code[i] + 1 > room then Failed(TooBig) else Failed(Invalid)
      case Literal(lit, next) =>
        if |bytes| + |lit| > room then Failed(TooBig) else DecodeFrom(code, next, bytes + lit, room)
      case Back(dist, len, next) =>
        if |bytes| + len > room then Failed(TooBig)
        else if dist > |bytes| then Failed(Invalid)
        else DecodeFrom(code, next, CopyBack(bytes, dist, len), room)
  }

  ghost function Decode(code: seq<byte>, room: nat): Decoded {
    DecodeFrom(code, 0, [], room)
  }

  // ---- The decompressor

  /** What one instruction does to a buffer that holds `was`. */
  ghost predicate Ran(code: seq<byte>, i: nat, was: seq<byte>, room: nat, r: Written, ip: nat, now: seq<byte>)
    requires i < |code|
  {
    match r
    case NotWritten(e) => DecodeFrom(code, i, was, room) == Failed(e)
    case Written(n) =>
      && n == |now| <= room && i < ip <= |code|
      && DecodeFrom(code, i, was, room) == DecodeFrom(code, ip, now, room)
  }

  /** Runs the code into a fixed buffer. The source reads the first control byte
      before it looks at the length, so the code must not be empty. */
  method Decompress(code: seq<byte>, out: array<byte>) returns (r: Written)
    requires code != []
    modifies out
    ensures match Decode(code, out.Length)
      case Decoded(bytes) => r == Written(|bytes|) && |bytes| <= out.Length && out[..|bytes|] == bytes
      case Failed(e) => r == NotWritten(e)
  {
    var ip, op := 0, 0;
    while ip < |code|
      invariant 0 <= ip <= |code| && 0 <= op <= out.Length
      invariant DecodeFrom(code, ip, out[..op], out.Length) == Decode(code, out.Length)
      decreases |code| - ip
    {
      if code[ip] < 32 {
        r, ip := RunLiteral(code, ip, out, op);
      } else {
        r, ip := RunReference(code, ip, out, op);
      }
      if r.NotWritten? {
        return;
      }
      op := r.n;
    }
    r := Written(op);
  }

  method RunLiteral(code: seq<byte>, i: nat, out: array<byte>, op: nat) returns (r: Written, ip: nat)
    requires i < |code| && code[i] < 32 && op <= out.Length
    modifies out
    ensures r.Written? ==> r.n <= out.Length
    ensures Ran(code, i, old(out[..op]), out.Length, r, ip, if r.Written? then out[..r.n] else [])
  {
    hide DecodeFrom, StepAt;
    LiteralStep(code, i, out[..op], out.Length);
    ip := i + 1;
    var ctrl: nat := code[i];
    ctrl := ctrl + 1;
    if op + ctrl > out.Length {
      return NotWritten(TooBig), ip;
    }
    if ip + ctrl > |code| {
      return NotWritten(Invalid), ip;
    }
    CopyLiteral(code, ip, out, op, ctrl);
    return Written(op + ctrl), ip + ctrl;
  }

  lemma LiteralStep(code: seq<byte>, i: nat, bytes: seq<byte>, room: nat)
    requires i < |code| && code[i] < 32
    ensures var n := code[i] as int + 1;
      && (|bytes| + n > room ==> DecodeFrom(code, i, bytes, room) == Failed(TooBig))
      && (|bytes| + n <= room && i + 1 + n > |code| ==> DecodeFrom(code, i, bytes, room) == Failed(Invalid))
      && (|bytes| + n <= room && i + 1 + n <= |code| ==>
            DecodeFrom(code, i, bytes, room) == DecodeFrom(code, i + 1 + n, bytes + code[i + 1..i + 1 + n], room))
  {}

  lemma ReferenceStep(code: seq<byte>, i: nat, bytes: seq<byte>, room: nat)
    requires i < |code| && code[i] >= 32
    ensures match StepAt(code, i)
      case Truncated => DecodeFrom(code, i, bytes, room) == Failed(Invalid)
      case Literal(_, _) => false
      case Back(dist, len, next) =>
        && (|bytes| + len > room ==> DecodeFrom(code, i, bytes, room) == Failed(TooBig))
        && (|bytes| + len <= room && dist > |bytes| ==> DecodeFrom(code, i, bytes, room) == Failed(Invalid))
        && (|bytes| + len <= room && dist <= |bytes| ==>
              DecodeFrom(code, i, bytes, room) == DecodeFrom(code, next, CopyBack(bytes, dist, len), room))
  {}

  method RunReference(code: seq<byte>, i: nat, out: array<byte>, op: nat) returns (r: Written, ip: nat)
    requires i < |code| && code[i] >= 32 && op <= out.Length
    modifies out
    ensures r.Written? ==> r.n <= out.Length
    ensures Ran(code, i, old(out[..op]), out.Length, r, ip, if r.Written? then out[..r.n] else [])
  {
    hide DecodeFrom, CopyBack;
    ReferenceStep(code, i, out[..op], out.Length);
    ip := i + 1;
    var ctrl: nat := code[i];
    var len := ctrl / 32;
    var ref := op - ctrl % 32 * 256 - 1;
    if ip >= |code| {
      return NotWritten(Invalid), ip;
    }
    if len == 7 {
      len := len + code[ip];
      ip := ip + 1;
      if ip >= |code| {
        return NotWritten(Invalid), ip;
      }
    }
    ref := ref - code[ip];
    ip := ip + 1;
    assert StepAt(code, i) == Back(op - ref, len + 2, ip);
    if op + len + 2 > out.Length {
      return NotWritten(TooBig), ip;
    }
    if ref < 0 {
      return NotWritten(Invalid), ip;
    }
    CopyReference(out, op, ref, len + 2);
    return Written(op + len + 2), ip;
  }

  method CopyLiteral(code: seq<byte>, ip: nat, out: array<byte>, op: nat, len: nat)
    requires ip + len <= |code| && op + len <= out.Length
    modifies out
    ensures out[..op + len] == old(out[..op]) + code[ip..ip + len]
  {
    var k := 0;
    while k < len
      invariant k <= len
      invariant out[..op + k] == old(out[..op]) + code[ip..ip + k]
    {
      out[op + k] := code[ip + k];
      k := k + 1;
    }
  }

  lemma CopyOne(was: seq<byte>, now: seq<byte>, dist: nat, len: nat)
    requires 1 <= dist <= |was| && len > 0 && |now| == |was| + 1
    requires now[..|was|] == was && now[|was|] == was[|was| - dist]
    ensures CopyBack(now, dist, len - 1) == CopyBack(was, dist, len)
  {
    assert now == was + [was[|was| - dist]];
  }

  lemma CopyNone(bytes: seq<byte>, dist: nat)
    requires 1 <= dist <= |bytes|
    ensures CopyBack(bytes, dist, 0) == bytes
  {}

  /** Byte by byte from `ref` on, even where that is what was just written. */
  method CopyReference(out: array<byte>, op: nat, ref: nat, len: nat)
    requires ref < op && op + len <= out.Length
    modifies out
    ensures out[..op + len] == CopyBack(old(out[..op]), op - ref, len)
  {
    hide CopyBack;
    ghost var before := out[..op];
    var k := 0;
    while k < len
      invariant k <= len
      invariant CopyBack(out[..op + k], op - ref, len - k) == CopyBack(before, op - ref, len)
    {
      ghost var was := out[..op + k];
      out[op + k] := out[ref + k];
      CopyOne(was, out[..op + k + 1], op - ref, len - k);
      k := k + 1;
    }
    CopyNone(out[..op + len], op - ref);
  }

  // ---- Codes grow at the end

  lemma {:induction false} DecodePrefix(c: seq<byte>, d: seq<byte>, i: nat, bytes: seq<byte>, room: nat)
    requires i <= |c| && DecodeFrom(c, i, bytes, room).Decoded?
    ensures DecodeFrom(c + d, i, bytes, room)
         == DecodeFrom(c + d, |c|, DecodeFrom(c, i, bytes, room).bytes, room)
    decreases |c| - i
  {
    if i < |c| {
      var s := StepAt(c, i);
      assert StepAt(c + d, i) == s by {
        if s.Literal? {
          assert (c + d)[i + 1..s.next] == c[i + 1..s.next];
        }
      }
      match s
      case Literal(lit, next) => DecodePrefix(c, d, next, bytes + lit, room);
      case Back(dist, len, next) => DecodePrefix(c, d, next, CopyBack(bytes, dist, len), room);
    }
  }

  lemma AppendLiteral(c: seq<byte>, x: seq<byte>, head: byte, lit: seq<byte>, room: nat)
    requires Decode(c, room) == Decoded(x)
    requires 1 <= |lit| <= MAX_LIT && head == |lit| - 1 && |x| + |lit| <= room
    ensures Decode(c + [head] + lit, room) == Decoded(x + lit)
  {
    hide StepAt;
    var d := [head] + lit;
    assert c + [head] + lit == c + d;
    DecodePrefix(c, d, 0, [], room);
    assert (c + d)[|c| + 1..|c| + 1 + |lit|] == lit;
    StepMeans(c + d, |c|, 0, head);
    assert StepAt(c + d, |c|) == Literal(lit, |c| + |d|);
    assert DecodeFrom(c + d, |c| + |d|, x + lit, room) == Decoded(x + lit);
  }

  lemma AppendBack(c: seq<byte>, x: seq<byte>, d: seq<byte>, dist: nat, len: nat, room: nat)
    requires Decode(c, room) == Decoded(x)
    requires 1 <= dist <= |x| && |x| + len <= room
    requires |d| > 0 && StepAt(d, 0) == Back(dist, len, |d|)
    ensures Decode(c + d, room) == Decoded(CopyBack(x, dist, len))
  {
    DecodePrefix(c, d, 0, [], room);
    assert StepAt(c + d, |c|) == Back(dist, len, |c| + |d|);
    assert DecodeFrom(c + d, |c| + |d|, CopyBack(x, dist, len), room) == Decoded(CopyBack(x, dist, len));
  }

  /** The `len` bytes at `a` are those at `b`. */
  ghost predicate Agree(x: seq<byte>, a: nat, b: nat, len: nat) {
    a <= b && b + len <= |x| && x[a..a + len] == x[b..b + len]
  }

  lemma AgreeMore(x: seq<byte>, a: nat, b: nat, len: nat)
    requires Agree(x, a, b, len) && b + len < |x| && x[a + len] == x[b + len]
    ensures Agree(x, a, b, len + 1)
  {
    assert x[a..a + len + 1] == x[a..a + len] + [x[a + len]];
    assert x[b..b + len + 1] == x[b..b + len] + [x[b + len]];
  }

  /** Copying back over a stretch that repeats with that distance reproduces it,
      however far the copy runs into itself. */
  lemma {:induction false} CopyBackRepeats(x: seq<byte>, i: nat, dist: nat, len: nat)
    requires 1 <= dist <= i && Agree(x, i - dist, i, len)
    ensures CopyBack(x[..i], dist, len) == x[..i + len]
    decreases len
  {
    if len > 0 {
      assert x[i - dist..i - dist + len][0] == x[i..i + len][0];
      assert x[..i] + [x[..i][i - dist]] == x[..i + 1];
      assert x[i - dist..i - dist + len][1..] == x[i + 1 - dist..i - dist + len];
      assert x[i..i + len][1..] == x[i + 1..i + len];
      CopyBackRepeats(x, i + 1, dist, len - 1);
    }
  }

  lemma {:induction false} DecodeGrows(code: seq<byte>, i: nat, bytes: seq<byte>, room: nat)
    requires DecodeFrom(code, i, bytes, room).Decoded?
    ensures |bytes| <= |DecodeFrom(code, i, bytes, room).bytes|
    ensures i < |code| ==> |DecodeFrom(code, i, bytes, room).bytes| <= room
    decreases |code| - i
  {
    if i < |code| {
      match StepAt(code, i)
      case Literal(lit, next) => DecodeGrows(code, next, bytes + lit, room);
      case Back(dist, len, next) => DecodeGrows(code, next, CopyBack(bytes, dist, len), room);
    }
  }

  /** A code that decodes at all decodes alike in any room that holds the
      result, and is too big for any other. */
  lemma {:induction false} RoomMatters(code: seq<byte>, i: nat, bytes: seq<byte>, room: nat, other: nat)
    requires DecodeFrom(code, i, bytes, room).Decoded? && |bytes| <= other
    ensures DecodeFrom(code, i, bytes, other)
         == if |DecodeFrom(code, i, bytes, room).bytes| <= other then DecodeFrom(code, i, bytes, room)
            else Failed(TooBig)
    decreases |code| - i
  {
    if i < |code| {
      match StepAt(code, i)
      case Literal(lit, next) =>
        DecodeGrows(code, next, bytes + lit, room);
        if |bytes| + |lit| <= other {
          RoomMatters(code, next, bytes + lit, room, other);
        }
      case Back(dist, len, next) =>
        DecodeGrows(code, next, CopyBack(bytes, dist, len), room);
        if |bytes| + len <= other {
          RoomMatters(code, next, CopyBack(bytes, dist, len), room, other);
        }
    }
  }

  // ---- The compressor

  function First(input: seq<byte>, ip: nat): (h: nat)
    requires ip + 1 < |input|
    ensures h < TWO32
  {
    input[ip] as nat * 256 + input[ip + 1] as nat
  }

  function Next(h: nat, third: byte): (r: nat)
    requires h < TWO32
    ensures r < TWO32
  {
    (h * 256 + third) % TWO32
  }

  function Index(h: nat): (r: nat)
    ensures r < HSIZE
  {
    (h / 256 - h * 5) % HSIZE
  }

  /** The hash of a place is that of its three bytes, as of the last four that
      were shifted in; the slot is its upper part less five times all of it. */
  lemma HashBits(input: seq<byte>, ip: nat, h: nat)
    requires ip + 2 < |input| && h < TWO32
    ensures Next(First(input, ip), input[ip + 2])
         == 65536 * input[ip] as int + 256 * input[ip + 1] as int + input[ip + 2] as int
    ensures Next(h, input[ip]) == h % 16777216 * 256 + input[ip]
    ensures (Index(h) + 5 * h) % 65536 == h / 256 % 65536
  {
    var f: int, g: int, third: int := input[ip], input[ip + 1], input[ip + 2];
    Split32((f * 256 + g) * 256 + third, 0, (f * 256 + g) * 256 + third);
    Split32(h * 256 + f, h / 16777216, h % 16777216 * 256 + f);
    var d := h / 256 - h * 5;
    LessMultiple(h / 256, d / 65536);
    assert d % 65536 + 5 * h == h / 256 - d / 65536 * 65536;
  }

  lemma LessMultiple(a: int, k: int)
    ensures (a - k * 65536) % 65536 == a % 65536
  {}

  /** A match ends where the bytes differ, at the greatest length, or within two
      bytes of the end. */
  ghost predicate Ends(input: seq<byte>, ref: nat, ip: nat, len: nat) {
    len == MAX_REF || ip + len + 2 >= |input| || (ref + len < |input| && input[ref + len] != input[ip + len])
  }

  /** How far the stretch at `ref` and the one at `ip` agree; the first three
      bytes are known to. The source tests sixteen bytes unrolled when there is
      room for them, which can pass its own limit by two. */
  method MatchLength(input: seq<byte>, ref: nat, ip: nat) returns (len: nat)
    requires ref < ip && ip + 4 < |input| && Agree(input, ref, ip, 3)
    ensures 3 <= len <= MAX_REF && Agree(input, ref, ip, len)
    ensures Ends(input, ref, ip, len)
  {
    len := 2;
    var maxlen := |input| - ip - len;
    maxlen := if maxlen > MAX_REF then MAX_REF else maxlen;
    if maxlen > 16 {
      var unrolled := 0;
      while unrolled < 16
        invariant unrolled <= 16 && len == 2 + unrolled
        invariant Agree(input, ref, ip, len + 1)
      {
        len := len + 1;
        if input[ref + len] != input[ip + len] {
          return;
        }
        AgreeMore(input, ref, ip, len);
        unrolled := unrolled + 1;
      }
    }
    len := len + 1;
    while len < maxlen && input[ref + len] == input[ip + len]
      invariant 3 <= len <= MAX_REF && Agree(input, ref, ip, len)
    {
      AgreeMore(input, ref, ip, len);
      len := len + 1;
    }
  }

  /** `out` ends with an open run: a header byte still to be filled in, then
      `lit` literal bytes. What precedes the run is a code for the input up to
      where the run starts, and is not much longer than it. */
  ghost predicate OpenRun(input: seq<byte>, out: seq<byte>, ip: nat, lit: nat) {
    && ip <= |input| && lit < MAX_LIT && lit <= ip && lit < |out|
    && out[|out| - lit..] == input[ip - lit..ip]
    && Decode(out[..|out| - lit - 1], |input|) == Decoded(input[..ip - lit])
    && 32 * (|out| - lit - 1) <= 33 * (ip - lit)
  }

  ghost predicate Coded(input: seq<byte>, out: seq<byte>, ip: nat) {
    ip <= |input| && Decode(out, |input|) == Decoded(input[..ip])
  }

  /** Fills the header of the open run in, or takes it back if it is empty. */
  method CloseRun(input: seq<byte>, open: seq<byte>, ip: nat, lit: nat) returns (out: seq<byte>)
    requires OpenRun(input, open, ip, lit)
    ensures Coded(input, out, ip)
    ensures |out| == if lit == 0 then |open| - 1 else |open|
  {
    out := open[|open| - lit - 1 := (lit - 1) % 256];
    if lit == 0 {
      out := out[..|out| - 1];
      assert out == open[..|open| - 1];
    } else {
      FullRun(input, open, ip, lit);
      assert out == open[..|open| - lit - 1] + [(lit - 1) as byte] + open[|open| - lit..];
    }
  }

  lemma FullRun(input: seq<byte>, out: seq<byte>, ip: nat, lit: nat)
    requires ip <= |input| && 1 <= lit <= MAX_LIT && lit <= ip && lit < |out|
    requires out[|out| - lit..] == input[ip - lit..ip]
    requires Decode(out[..|out| - lit - 1], |input|) == Decoded(input[..ip - lit])
    ensures Coded(input, out[..|out| - lit - 1] + [(lit - 1) as byte] + out[|out| - lit..], ip)
  {
    AppendLiteral(out[..|out| - lit - 1], input[..ip - lit], lit - 1, input[ip - lit..ip], |input|);
    assert input[..ip - lit] + input[ip - lit..ip] == input[..ip];
  }

  /** One more literal byte, which may fill the run up. */
  method AddLiteral(input: seq<byte>, open: seq<byte>, ip: nat, lit0: nat) returns (out: seq<byte>, lit: nat)
    requires OpenRun(input, open, ip, lit0) && ip < |input|
    ensures OpenRun(input, out, ip + 1, lit)
    ensures OneLonger(open, lit0, out, lit)
  {
    hide Decode;
    lit := lit0 + 1;
    out := open + [input[ip]];
    RunGrows(input, open, ip, lit0);
    if lit == MAX_LIT {
      RunFull(input, out, ip + 1);
      out := out[|out| - lit - 1 := lit - 1];
      lit := 0;
      out := out + [0];
    }
  }

  predicate OneLonger(open: seq<byte>, lit0: nat, out: seq<byte>, lit: nat) {
    if lit0 + 1 == MAX_LIT then lit == 0 && |out| == |open| + 2 else lit == lit0 + 1 && |out| == |open| + 1
  }

  /** The run with one more byte, which may make it a full one. */
  ghost predicate LongRun(input: seq<byte>, out: seq<byte>, ip: nat, lit: nat) {
    && ip <= |input| && 1 <= lit <= MAX_LIT && lit <= ip && lit < |out|
    && out[|out| - lit..] == input[ip - lit..ip]
    && Decode(out[..|out| - lit - 1], |input|) == Decoded(input[..ip - lit])
    && 32 * (|out| - lit - 1) <= 33 * (ip - lit)
  }

  lemma RunGrows(input: seq<byte>, open: seq<byte>, ip: nat, lit: nat)
    requires OpenRun(input, open, ip, lit) && ip < |input|
    ensures LongRun(input, open + [input[ip]], ip + 1, lit + 1)
  {
    hide Decode;
    var out := open + [input[ip]];
    assert out[|out| - lit - 1..] == open[|open| - lit..] + [input[ip]];
    assert input[ip - lit..ip] + [input[ip]] == input[ip - lit..ip + 1];
    assert out[..|out| - lit - 2] == open[..|open| - lit - 1];
  }

  /** A full run gets its header, and an empty one follows. */
  lemma RunFull(input: seq<byte>, full: seq<byte>, ip: nat)
    requires LongRun(input, full, ip, MAX_LIT)
    ensures |full| > MAX_LIT
    ensures OpenRun(input, full[|full| - MAX_LIT - 1 := MAX_LIT - 1] + [0], ip, 0)
  {
    hide Decode;
    FullRun(input, full, ip, MAX_LIT);
    var out := full[|full| - MAX_LIT - 1 := MAX_LIT - 1];
    assert out == full[..|full| - MAX_LIT - 1] + [(MAX_LIT - 1) as byte] + full[|full| - MAX_LIT..];
    assert (out + [0])[..|out|] == out;
  }

  /** A back reference, two or three bytes. */
  method BackBytes(off: nat, len0: nat) returns (d: seq<byte>)
    requires off < MAX_OFF && 3 <= len0 <= MAX_REF
    ensures |d| == (if len0 < 9 then 2 else 3) && StepAt(d, 0) == Back(off + 1, len0, |d|)
  {
    hide StepAt;
    var len := len0 - 2;
    if len < 7 {
      d := [off / 256 + len * 32];
    } else {
      d := [off / 256 + 7 * 32];
      d := d + [len - 7];
    }
    d := d + [off % 256];
    StepMeans(d, 0, if len < 7 then len else 7, off / 256);
  }

  /** A back reference and the header of the next run. */
  method AddBack(input: seq<byte>, coded: seq<byte>, ip: nat, off: nat, len0: nat) returns (out: seq<byte>)
    requires Coded(input, coded, ip) && off < MAX_OFF && off + 1 <= ip && 3 <= len0 <= MAX_REF
    requires Agree(input, ip - off - 1, ip, len0)
    requires 32 * (|coded| + 2) <= 33 * (ip + 3)
    ensures OpenRun(input, out, ip + len0, 0)
    ensures |out| == |coded| + if len0 < 9 then 3 else 4
  {
    hide StepAt, Decode, DecodeFrom, CopyBack;
    var d := BackBytes(off, len0);
    AppendBack(coded, input[..ip], d, off + 1, len0, |input|);
    CopyBackRepeats(input, ip, off + 1, len0);
    out := coded + d + [0];
    assert out[..|out| - 1] == coded + d;
  }

  /** Looks the next three bytes up in the table and leaves their place there.
      Only the guards make a slot usable: the distance has to be small, the
      place must not be the first one, and the bytes have to be the same. */
  method FindMatch(input: seq<byte>, ip: nat, hval0: nat, htab: array<Slot>)
    returns (hval: nat, found: bool, off: nat)
    requires ip + 2 < |input| < TWO32 && htab.Length == HSIZE && hval0 < TWO32
    modifies htab
    ensures hval == Next(hval0, input[ip + 2]) && htab[..] == old(htab[..])[Index(hval) := ip]
    ensures found <==>
      var ref := old(htab[..])[Index(hval)];
      && 0 < ref < ip <= ref + 8192 && ip + 4 < |input|
      && input[ref] == input[ip] && input[ref + 1] == input[ip + 1] && input[ref + 2] == input[ip + 2]
    ensures found ==> off == ip - 1 - old(htab[..])[Index(hval)]
    ensures found ==> ip + 4 < |input| && off < MAX_OFF && off + 1 < ip && Agree(input, ip - off - 1, ip, 3)
  {
    hval := Next(hval0, input[ip + 2]);
    var ref := htab[Index(hval)];
    htab[Index(hval)] := ip;
    off := (ip - ref - 1) % TWO64;
    found := false;
    if off < MAX_OFF && ip + 4 < |input| && ref > 0 {
      NoWrap(ip - ref - 1);
      found := input[ref] == input[ip] && input[ref + 1] == input[ip + 1] && input[ref + 2] == input[ip + 2];
      assert found ==> input[ref..ref + 3] == input[ip..ip + 3];
    }
  }

  /** A pointer distance taken modulo 2^64 is small only if it is the distance. */
  lemma NoWrap(d: int)
    requires -TWO64 + MAX_OFF <= d < TWO64 && d % TWO64 < MAX_OFF
    ensures d == d % TWO64
  {}

  /** After a match, enters its last two places into the table. */
  method Rehash(input: seq<byte>, ip: nat, htab: array<Slot>) returns (hval: nat)
    requires 2 <= ip && ip + 2 < |input| < TWO32 && htab.Length == HSIZE
    modifies htab
    ensures hval == Next(Next(First(input, ip - 2), input[ip]), input[ip + 1])
    ensures htab[..] == old(htab[..])[Index(Next(First(input, ip - 2), input[ip])) := ip - 2][Index(hval) := ip - 1]
  {
    hval := First(input, ip - 2);
    hval := Next(hval, input[ip]);
    htab[Index(hval)] := ip - 2;
    hval := Next(hval, input[ip + 1]);
    htab[Index(hval)] := ip - 1;
  }

  lemma RunBounds(input: seq<byte>, out: seq<byte>, ip: nat, lit: nat)
    requires OpenRun(input, out, ip, lit)
    ensures lit <= ip <= |input| && lit < MAX_LIT && lit < |out|
    ensures 32 * (|out| - lit - 1) <= 33 * (ip - lit)
  {}

  lemma FirstRun(input: seq<byte>)
    ensures OpenRun(input, [0], 0, 0) && OnlyLiterals([0], 0, 0)
  {}

  /** Ends the open run and refers back to the match, if there is room for that. */
  method AddMatch(input: seq<byte>, open: seq<byte>, ip0: nat, lit: nat, off: nat, outLen: nat)
    returns (room: bool, out: seq<byte>, ip: nat)
    requires OpenRun(input, open, ip0, lit) && ip0 + 4 < |input|
    requires off < MAX_OFF && off + 1 <= ip0 && Agree(input, ip0 - off - 1, ip0, 3)
    ensures room ==> OpenRun(input, out, ip, 0) && ip0 + 3 <= ip <= |input|
    ensures room ==> Ends(input, ip0 - off - 1, ip0, ip - ip0)
    ensures room ==> |out| <= |open| + if lit == 0 then 3 else 4
    ensures room <==> |open| + (if lit == 0 then 3 else 4) < outLen
    ensures outLen >= |input| + |input| / 32 + 4 ==> room
  {
    hide OpenRun, Decode, DecodeFrom, StepAt, Agree, CopyBack, Ends;
    RunBounds(input, open, ip0, lit);
    var len := MatchLength(input, ip0 - off - 1, ip0);
    out := CloseRun(input, open, ip0, lit);
    if |out| + 3 + 1 >= outLen {
      return false, out, ip0;
    }
    out := AddBack(input, out, ip0, off, len);
    RunBounds(input, out, ip0 + len, 0);
    return true, out, ip0 + len;
  }

  // ---- How long a code can get

  /** The longest a code for `n` bytes gets: a header byte for every 32 bytes. */
  function Longest(n: nat): nat {
    n + (n + 31) / 32
  }

  /** The output is under 104% of `n` even when it is as long as it can get. */
  predicate KeepsPromise(n: nat) {
    25 * ((n + 31) / 32) < n
  }

  lemma PromiseIsLength(n: nat)
    ensures 100 * Longest(n) < 104 * n <==> KeepsPromise(n)
    ensures n > 100 ==> KeepsPromise(n)
  {
    var q, r := (n + 31) / 32, (n + 31) % 32;
    assert n + 31 == 32 * q + r;
  }

  /** The guards pass nowhere: no three bytes recur where a match may be taken. */
  ghost predicate NoMatch(input: seq<byte>) {
    forall i, j :: 0 <= i < j && j + 4 < |input| ==> !SameThree(input, i, j)
  }

  ghost predicate SameThree(input: seq<byte>, i: nat, j: nat) {
    i < j && j + 4 < |input| && Agree(input, i, j, 3)
  }

  /** So far all went out as literals. */
  predicate OnlyLiterals(out: seq<byte>, ip: nat, lit: nat) {
    |out| == ip + ip / 32 + 1 && lit == ip % 32
  }

  lemma OneMoreLiteral(open: seq<byte>, ip: nat, lit0: nat, out: seq<byte>, lit: nat)
    requires OnlyLiterals(open, ip, lit0) && OneLonger(open, lit0, out, lit)
    ensures OnlyLiterals(out, ip + 1, lit)
  {}

  lemma AllLiterals(open: seq<byte>, ip: nat, lit: nat, out: seq<byte>)
    requires OnlyLiterals(open, ip, lit) && |out| == if lit == 0 then |open| - 1 else |open|
    ensures |out| == Longest(ip)
  {}

  /** At most two literals follow. */
  predicate TwoLonger(open: seq<byte>, ip0: nat, lit0: nat, out: seq<byte>, ip: nat, lit: nat) {
    || (|out| == |open| + (ip - ip0) && lit == lit0 + (ip - ip0))
    || (|out| == |open| + (ip - ip0) + 1 && lit < ip - ip0)
  }

  lemma StillTwoLonger(open: seq<byte>, ip0: nat, lit0: nat, mid: seq<byte>, ip: nat, lit1: nat, out: seq<byte>,
                       lit: nat)
    requires ip0 <= ip <= ip0 + 1 && lit0 < MAX_LIT
    requires TwoLonger(open, ip0, lit0, mid, ip, lit1) && OneLonger(mid, lit1, out, lit)
    ensures TwoLonger(open, ip0, lit0, out, ip + 1, lit)
  {}

  lemma LengthBound(input: seq<byte>, open: seq<byte>, ip0: nat, lit0: nat, last: seq<byte>, lit: nat, out: seq<byte>)
    requires OpenRun(input, last, |input|, lit) && ip0 <= |input| <= ip0 + 2 && input != []
    requires TwoLonger(open, ip0, lit0, last, |input|, lit)
    requires |out| == if lit == 0 then |last| - 1 else |last|
    ensures |out| <= |open| + 3 && |out| <= Longest(|input|)
  {
    hide Decode;
  }

  // ---- Equal bytes, which shrink

  ghost predicate Uniform(input: seq<byte>) {
    forall i :: 0 <= i < |input| ==> input[i] == input[0]
  }

  /** The hash of four bytes `a`. */
  ghost function HashOf(a: byte): (h: nat)
    ensures h < TWO32
  {
    a as nat * 0x101_0101
  }

  lemma HashGrows(a: byte)
    ensures Next(Next(a as nat * 0x101, a), a) == HashOf(a) && Next(HashOf(a), a) == HashOf(a)
  {
    var x: nat := a;
    Split32(x * 0x101 * 256 + x, 0, x * 0x1_0101);
    assert Next(a as nat * 0x101, a) == x * 0x1_0101;
    Split32(x * 0x1_0101 * 256 + x, 0, x * 0x101_0101);
    Split32(x * 0x101_0101 * 256 + x, x, x * 0x101_0101);
  }

  /** What hash and table are where the next piece starts: from the third byte on
      the slot of four equal bytes names the place before. */
  ghost predicate Primed(input: seq<byte>, ip: nat, hval: nat, slots: seq<Slot>)
    requires input != []
  {
    && |slots| == HSIZE && hval < TWO32
    && hval == (if ip == 0 then input[0] as nat * 0x101
                else if ip == 1 then Next(input[0] as nat * 0x101, input[0])
                else HashOf(input[0]))
    && (ip >= 2 ==> slots[Index(hval)] == ip - 1)
  }

  lemma PrimedFirst(input: seq<byte>, slots: seq<Slot>)
    requires Uniform(input) && |input| >= 2 && |slots| == HSIZE
    ensures Primed(input, 0, First(input, 0), slots)
  {}

  /** Where the bytes are equal, a match is found from the third one on, until the
      end is near. */
  lemma FoundWhere(input: seq<byte>, ip: nat, hval: nat, slots: seq<Slot>)
    requires Uniform(input) && ip + 2 < |input| && Primed(input, ip, hval, slots)
    ensures var h := Next(hval, input[ip + 2]);
      var ref := slots[Index(h)];
      (0 < ref < ip <= ref + MAX_OFF && ip + 4 < |input|
       && input[ref] == input[ip] && input[ref + 1] == input[ip + 1] && input[ref + 2] == input[ip + 2])
      <==> ip >= 2 && ip + 4 < |input|
  {
    hide Next, Index, HashOf;
    HashGrows(input[0]);
  }

  lemma PrimedLiteral(input: seq<byte>, ip: nat, hval: nat, slots: seq<Slot>)
    requires Uniform(input) && ip + 2 < |input| < TWO32 && Primed(input, ip, hval, slots)
    ensures var h := Next(hval, input[ip + 2]); Primed(input, ip + 1, h, slots[Index(h) := ip])
  {
    hide Next, Index, HashOf;
    HashGrows(input[0]);
  }

  lemma PrimedMatch(input: seq<byte>, ip: nat, slots: seq<Slot>)
    requires Uniform(input) && 2 <= ip && ip + 2 < |input| < TWO32 && |slots| == HSIZE
    ensures var g := Next(First(input, ip - 2), input[ip]);
      var h := Next(g, input[ip + 1]);
      Primed(input, ip, h, slots[Index(g) := ip - 2][Index(h) := ip - 1])
  {
    hide Next, Index, HashOf;
    HashGrows(input[0]);
  }

  /** How much has been written where the next piece starts: three bytes for every
      264, and a few at either end. */
  ghost predicate Short(n: nat, ip: nat, outLen: nat, lit: nat) {
    ip <= n && if ip <= 2 then outLen == ip + 1 && lit == ip
    else if ip + 4 < n then outLen <= 4 + (ip - 2) / 88 && lit == 0
    else outLen <= 7 + (ip - 2) / 88 + (ip + 4 - n) && lit <= ip + 6 - n
  }

  /** Room that is enough for equal bytes. */
  ghost function Shrunk(n: nat): nat {
    n / 88 + 14
  }

  lemma ShortLiteral(n: nat, ip: nat, lit0: nat, out0: seq<byte>, out: seq<byte>, lit: nat)
    requires Short(n, ip, |out0|, lit0) && ip + 2 < n && !(ip >= 2 && ip + 4 < n) && OneLonger(out0, lit0, out, lit)
    ensures Short(n, ip + 1, |out|, lit)
  {}

  lemma ShortMatch(n: nat, ip: nat, out0: nat, lit0: nat, out: nat, to: nat)
    requires Short(n, ip, out0, lit0) && ip >= 2 && ip + 4 < n && ip + 3 <= to <= n
    requires to == ip + MAX_REF || to + 2 >= n
    requires out <= out0 + if lit0 == 0 then 3 else 4
    ensures Short(n, to, out, 0)
  {}

  lemma ShortFits(n: nat, ip: nat, outLen: nat, lit: nat)
    requires Short(n, ip, outLen, lit)
    ensures ip + 2 < n ==> outLen + 4 < Shrunk(n)
    ensures outLen + 3 <= Shrunk(n)
  {}

  /** All bytes are equal, and so far it went as it should. */
  ghost predicate EqualSoFar(input: seq<byte>, ip: nat, hval: nat, slots: seq<Slot>, outLen: nat, lit: nat) {
    && input != [] && Uniform(input) && Short(|input|, ip, outLen, lit)
    && (ip + 2 < |input| ==> Primed(input, ip, hval, slots))
  }

  lemma EqualLiteral(input: seq<byte>, ip: nat, hval: nat, slots: seq<Slot>, out0: seq<byte>, lit0: nat,
                     out: seq<byte>, lit: nat)
    requires EqualSoFar(input, ip, hval, slots, |out0|, lit0) && ip + 2 < |input| < TWO32
    requires !(ip >= 2 && ip + 4 < |input|) && OneLonger(out0, lit0, out, lit)
    ensures var h := Next(hval, input[ip + 2]); EqualSoFar(input, ip + 1, h, slots[Index(h) := ip], |out|, lit)
  {
    hide Uniform, Primed, Short, Next, Index, OneLonger;
    PrimedLiteral(input, ip, hval, slots);
    ShortLiteral(|input|, ip, lit0, out0, out, lit);
  }

  lemma EqualMatch(input: seq<byte>, ip: nat, hval: nat, slots: seq<Slot>, outLen0: nat, lit0: nat, ref: nat, to: nat,
                   outLen: nat)
    requires EqualSoFar(input, ip, hval, slots, outLen0, lit0) && 2 <= ip && ip + 4 < |input| && ref < ip
    requires ip + 3 <= to <= |input| && Ends(input, ref, ip, to - ip)
    requires outLen <= outLen0 + if lit0 == 0 then 3 else 4
    ensures Uniform(input) && Short(|input|, to, outLen, 0)
  {
    hide Primed, Short;
    ShortMatch(|input|, ip, outLen0, lit0, outLen, to);
  }

  lemma EqualFits(input: seq<byte>, ip: nat, hval: nat, slots: seq<Slot>, outLen: nat, lit: nat)
    requires EqualSoFar(input, ip, hval, slots, outLen, lit)
    ensures ip + 2 < |input| ==> outLen + 4 < Shrunk(|input|)
    ensures outLen + 3 <= Shrunk(|input|)
  {
    hide Uniform, Primed, Short, Shrunk;
    ShortFits(|input|, ip, outLen, lit);
  }

  lemma EqualFound(input: seq<byte>, ip: nat, hval: nat, slots: seq<Slot>, outLen: nat, lit: nat)
    requires EqualSoFar(input, ip, hval, slots, outLen, lit) && ip + 2 < |input| && |slots| == HSIZE && hval < TWO32
    ensures var h := Next(hval, input[ip + 2]);
      var ref := slots[Index(h)];
      (0 < ref < ip <= ref + MAX_OFF && ip + 4 < |input|
       && input[ref] == input[ip] && input[ref + 1] == input[ip + 1] && input[ref + 2] == input[ip + 2])
      <==> ip >= 2 && ip + 4 < |input|
  {
    hide Uniform, Primed, Short, Next, Index;
    FoundWhere(input, ip, hval, slots);
  }

  lemma EqualStart(input: seq<byte>, hval: nat, slots: seq<Slot>)
    requires input != [] && |slots| == HSIZE && (|input| >= 2 ==> hval == First(input, 0))
    ensures Uniform(input) ==> EqualSoFar(input, 0, hval, slots, 1, 0)
  {
    if Uniform(input) && |input| >= 2 {
      PrimedFirst(input, slots);
    }
  }

  /** A match, after which the table is brought up to date, or a literal byte. */
  method NextPiece(input: seq<byte>, out0: seq<byte>, ip0: nat, lit0: nat, hval0: nat, htab: array<Slot>, outLen: nat)
    returns (room: bool, out: seq<byte>, ip: nat, lit: nat, hval: nat)
    requires OpenRun(input, out0, ip0, lit0) && ip0 + 2 < |input| < TWO32 && htab.Length == HSIZE && hval0 < TWO32
    modifies htab
    ensures room ==> OpenRun(input, out, ip, lit) && ip0 < ip <= |input| && hval < TWO32
    ensures room && NoMatch(input) && OnlyLiterals(out0, ip0, lit0) ==> OnlyLiterals(out, ip, lit)
    ensures outLen >= |input| + |input| / 32 + 4 ==> room
    ensures EqualSoFar(input, ip0, hval0, old(htab[..]), |out0|, lit0) ==>
      && (outLen >= Shrunk(|input|) ==> room)
      && (room ==> EqualSoFar(input, ip, hval, htab[..], |out|, lit))
  {
    hide OpenRun, Agree, OnlyLiterals, OneLonger, Uniform, Primed, Short, Shrunk, Next, Index, First, Ends;
    RunBounds(input, out0, ip0, lit0);
    ghost var slots, equal := htab[..], EqualSoFar(input, ip0, hval0, htab[..], |out0|, lit0);
    if equal {
      EqualFound(input, ip0, hval0, slots, |out0|, lit0);
      EqualFits(input, ip0, hval0, slots, |out0|, lit0);
    }
    var found, off;
    hval, found, off := FindMatch(input, ip0, hval0, htab);
    if found {
      assert SameThree(input, ip0 - off - 1, ip0);
      room, out, ip := AddMatch(input, out0, ip0, lit0, off, outLen);
      lit := 0;
      ghost var before := htab[..];
      if room && ip + 2 < |input| {
        hval := Rehash(input, ip, htab);
      }
      if room && equal {
        EqualMatch(input, ip0, hval0, slots, |out0|, lit0, ip0 - off - 1, ip, |out|);
        if ip + 2 < |input| {
          PrimedMatch(input, ip, before);
        }
      }
    } else {
      room, out, ip, lit := |out0| < outLen, out0, ip0, lit0;
      if room {
        out, lit := AddLiteral(input, out0, ip0, lit0);
        ip := ip0 + 1;
        if OnlyLiterals(out0, ip0, lit0) {
          OneMoreLiteral(out0, ip0, lit0, out, lit);
        }
        if equal {
          EqualLiteral(input, ip0, hval0, slots, out0, lit0, out, lit);
        }
      }
    }
  }

  /** Whatever the table holds, the result decodes to the input. The result is
      empty if the output might not have had room. */
  method Compress(input: seq<byte>, outLen: nat, htab: array<Slot>) returns (out: seq<byte>)
    requires |input| < TWO32 && htab.Length == HSIZE
    modifies htab
    ensures input == [] || outLen == 0 ==> out == []
    ensures out != [] ==> Decode(out, |input|) == Decoded(input)
    ensures |out| <= outLen && |out| <= Longest(|input|)
    ensures KeepsPromise(|input|) ==> 100 * |out| < 104 * |input|
    ensures out != [] && NoMatch(input) ==> |out| == Longest(|input|)
    ensures input != [] && outLen >= |input| + |input| / 32 + 4 ==> out != []
    ensures Uniform(input) ==> |out| <= |input| / 88 + 14
    ensures Uniform(input) && input != [] && outLen >= |input| / 88 + 14 ==> out != []
  {
    hide *;
    var n := |input|;
    ShrunkIs(n);
    PromiseIsLength(n);
    if n == 0 || outLen == 0 {
      NoLength(n);
      return [];
    }
    var ip: nat, lit: nat, hval: nat := 0, 0, 0;
    out := [0];
    FirstRun(input);
    if n >= 2 {
      hval := First(input, 0);
    }
    EqualStart(input, hval, htab[..]);
    while ip < n - 2
      invariant Uniform(input) ==> EqualSoFar(input, ip, hval, htab[..], |out|, lit)
      invariant OpenRun(input, out, ip, lit) && hval < TWO32 && ip <= n
      invariant NoMatch(input) ==> OnlyLiterals(out, ip, lit)
      decreases n - ip
    {
      var room;
      room, out, ip, lit, hval := NextPiece(input, out, ip, lit, hval, htab, outLen);
      if !room {
        NoLength(n);
        return [];
      }
    }
    RunBounds(input, out, ip, lit);
    if Uniform(input) {
      EqualFits(input, ip, hval, htab[..], |out|, lit);
    }
    if |out| + 3 > outLen {
      NoLength(n);
      return [];
    }
    out := Finish(input, out, ip, lit);
  }

  lemma ShrunkIs(n: nat)
    ensures Shrunk(n) == n / 88 + 14
  {}

  lemma NoLength(n: nat)
    ensures Longest(n) >= n && (KeepsPromise(n) ==> 0 < 104 * n)
  {}

  /** The last bytes, at most two of them, go out as literals. */
  method Finish(input: seq<byte>, open: seq<byte>, ip0: nat, lit0: nat) returns (out: seq<byte>)
    requires OpenRun(input, open, ip0, lit0) && 1 <= |input| <= ip0 + 2
    ensures Decode(out, |input|) == Decoded(input) && out != []
    ensures |out| <= |open| + 3 && |out| <= Longest(|input|)
    ensures OnlyLiterals(open, ip0, lit0) ==> |out| == Longest(|input|)
  {
    hide OpenRun, Coded, Decode, OnlyLiterals, OneLonger, Longest;
    var ip: nat, lit: nat := ip0, lit0;
    out := open;
    RunBounds(input, out, ip, lit);
    while ip < |input|
      invariant OpenRun(input, out, ip, lit) && ip0 <= ip <= |input|
      invariant TwoLonger(open, ip0, lit0, out, ip, lit)
      invariant OnlyLiterals(open, ip0, lit0) ==> OnlyLiterals(out, ip, lit)
    {
      ghost var mid, before := out, lit;
      out, lit := AddLiteral(input, out, ip, lit);
      StillTwoLonger(open, ip0, lit0, mid, ip, before, out, lit);
      if OnlyLiterals(mid, ip, before) {
        OneMoreLiteral(mid, ip, before, out, lit);
      }
      ip := ip + 1;
    }
    ghost var last := out;
    out := CloseRun(input, out, ip, lit);
    CodedAll(input, out);
    LengthBound(input, open, ip0, lit0, last, lit, out);
    if OnlyLiterals(last, ip, lit) {
      AllLiterals(last, ip, lit, out);
    }
  }

  lemma CodedAll(input: seq<byte>, out: seq<byte>)
    requires Coded(input, out, |input|)
    ensures Decode(out, |input|) == Decoded(input) && (input != [] ==> out != [])
  {
    assert input[..|input|] == input;
  }

  /** The round trip through both programs, into any buffer. */
  method RoundTrip(input: seq<byte>, outLen: nat, htab: array<Slot>, buffer: array<byte>)
    returns (code: seq<byte>, r: Written)
    requires |input| < TWO32 && htab.Length == HSIZE && buffer as object != htab
    modifies htab, buffer
    ensures code != [] && |input| <= buffer.Length ==> r == Written(|input|) && buffer[..|input|] == input
    ensures code != [] && |input| > buffer.Length ==> r == NotWritten(TooBig)
    ensures input != [] && outLen >= |input| + |input| / 32 + 4 ==> code != []
  {
    code := Compress(input, outLen, htab);
    r := NotWritten(Invalid);
    if code != [] {
      r := Decompress(code, buffer);
      RoomMatters(code, 0, [], |input|, buffer.Length);
    }
  }

  /** The bytes 0, 1, 2 and so on. */
  function Rising(n: nat): (s: seq<byte>)
    requires n <= 256
    ensures |s| == n && forall i :: 0 <= i < n ==> s[i] == i
  {
    seq(n, i requires 0 <= i < n => i)
  }

  lemma RisingHasNoMatch(n: nat)
    requires n <= 256
    ensures NoMatch(Rising(n))
  {
    var s := Rising(n);
    forall i, j | 0 <= i < j && j + 4 < n ensures !SameThree(s, i, j) {
      if SameThree(s, i, j) {
        SameStart(s, i, j);
      }
    }
  }

  lemma SameStart(x: seq<byte>, a: nat, b: nat)
    requires Agree(x, a, b, 3)
    ensures x[a] == x[b]
  {
    assert x[a..a + 3][0] == x[b..b + 3][0];
  }

  /** For every length from 1 on at which the promise is not kept by the longest
      code, there are bytes on which it is broken, whatever the table holds. */
  method BreakPromise(n: nat, htab: array<Slot>) returns (input: seq<byte>, out: seq<byte>)
    requires n >= 1 && !KeepsPromise(n) && htab.Length == HSIZE
    modifies htab
    ensures |input| == n && out != [] && Decode(out, n) == Decoded(input)
    ensures |out| == Longest(n) && 100 * |out| >= 104 * n
  {
    hide KeepsPromise, Longest, Decode, NoMatch;
    PromiseIsLength(n);
    input := Rising(n);
    RisingHasNoMatch(n);
    out := Compress(input, n + n / 32 + 4, htab);
  }
}
