// The write-ahead log: its bytes, and what replaying bytes does to a file.
module WalFormat {
  import opened Bytes
  import opened Sha1

  /** "rlwal0.0" and "rlite0.0" in ASCII. */
  const LOG_IDENTIFIER: seq<byte> := [0x72, 0x6C, 0x77, 0x61, 0x6C, 0x30, 0x2E, 0x30]
  const FILE_IDENTIFIER: seq<byte> := [0x72, 0x6C, 0x69, 0x74, 0x65, 0x30, 0x2E, 0x30]

  /** The page size recovery starts from, before it knows the real one. */
  const HEADER_SIZE := 200
  const TWO31 := 0x8000_0000

  datatype Record = Record(number: nat, page: seq<byte>)

  type File = seq<byte>

  /** A byte of a file. What is not there reads as zero. */
  ghost function At(file: File, i: nat): byte {
    if i < |file| then file[i] else 0
  }

  /** Where page `p` starts. */
  function Offset(p: nat, size: nat): nat {
    p * size
  }

  /** `n` bytes from position `at` on. */
  function Sub(s: seq<byte>, at: nat, n: nat): (r: seq<byte>)
    requires at + n <= |s|
    ensures |r| == n
  {
    s[at..at + n]
  }

  lemma SubSub(s: seq<byte>, at: nat, n: nat, i: nat, m: nat)
    requires at + n <= |s| && i + m <= n
    ensures Sub(Sub(s, at, n), i, m) == Sub(s, at + i, m)
  {
    var a, b := Sub(Sub(s, at, n), i, m), Sub(s, at + i, m);
    assert forall k :: 0 <= k < m ==> a[k] == Sub(s, at, n)[i + k] && b[k] == s[at + i + k];
    assert a == b;
  }

  function RecordBytes(r: Record): seq<byte> {
    BigEndian(r.number, 4) + r.page
  }

  ghost function Body(rs: seq<Record>): seq<byte> {
    if rs == [] then [] else Body(rs[..|rs| - 1]) + RecordBytes(rs[|rs| - 1])
  }

  /** Identifier, digest of the records, their number, and the records. */
  ghost function LogBytes(tr: Transform, rs: seq<Record>): seq<byte> {
    LOG_IDENTIFIER + Digest(tr, Body(rs)) + BigEndian(|rs|, 4) + Body(rs)
  }

  lemma BodyNone()
    ensures Body([]) == []
  {}

  lemma BodyOneMore(rs: seq<Record>, r: Record)
    ensures Body(rs + [r]) == Body(rs) + RecordBytes(r)
  {
    assert (rs + [r])[..|rs|] == rs;
  }

  lemma {:induction false} BodyJoin(a: seq<Record>, b: seq<Record>)
    ensures Body(a + b) == Body(a) + Body(b)
    decreases |b|
  {
    hide *;
    BodyNone();
    if b == [] {
      assert a + b == a;
    } else {
      var c, r := b[..|b| - 1], b[|b| - 1];
      assert b == c + [r] && a + b == (a + c) + [r];
      BodyJoin(a, c);
      BodyOneMore(c, r);
      BodyOneMore(a + c, r);
    }
  }

  lemma {:induction false} BodyLength(rs: seq<Record>, size: nat)
    requires forall i :: 0 <= i < |rs| ==> |rs[i].page| == size
    ensures |Body(rs)| == |rs| * (size + 4)
  {
    if rs != [] {
      BodyLength(rs[..|rs| - 1], size);
      assert (|rs| - 1) * (size + 4) == |rs| * (size + 4) - (size + 4);
    }
  }

  /** Where the parts of a log are. */
  lemma LogParts(tr: Transform, rs: seq<Record>)
    requires |rs| < TWO31
    ensures var log := LogBytes(tr, rs);
      && |log| == 32 + |Body(rs)| && Sub(log, 0, 8) == LOG_IDENTIFIER && Sub(log, 8, 20) == Digest(tr, Body(rs))
      && FromBigEndian(Sub(log, 28, 4)) == |rs| && Sub(log, 32, |Body(rs)|) == Body(rs)
  {
    hide Body, Digest, BigEndian, FromBigEndian, Pow256, Sub;
    DigestLength(tr, Body(rs));
    NumberRoundTrip(|rs|);
    FourParts(LOG_IDENTIFIER, Digest(tr, Body(rs)), BigEndian(|rs|, 4), Body(rs));
  }

  lemma FourParts(a: seq<byte>, b: seq<byte>, c: seq<byte>, d: seq<byte>)
    requires |a| == 8 && |b| == 20 && |c| == 4
    ensures var log := a + b + c + d;
      && |log| == 32 + |d| && Sub(log, 0, 8) == a && Sub(log, 8, 20) == b && Sub(log, 28, 4) == c
      && Sub(log, 32, |d|) == d
  {}

  lemma DigestLength(tr: Transform, m: seq<byte>)
    ensures |Digest(tr, m)| == 20
  {}

  lemma NumberRoundTrip(n: nat)
    requires n < TWO31
    ensures FromBigEndian(BigEndian(n, 4)) == n
  {
    assert Pow256(4) == TWO32;
    BigEndianRoundTrip(n, 4);
  }

  /** The bytes at `at` are those of a record. */
  ghost predicate HasRecord(log: seq<byte>, at: nat, r: Record) {
    && at + 4 + |r.page| <= |log|
    && FromBigEndian(Sub(log, at, 4)) == r.number && Sub(log, at + 4, |r.page|) == r.page
  }

  /** Record `i` of a log: where it is and what it says. */
  lemma RecordAt(tr: Transform, rs: seq<Record>, i: nat)
    requires |rs| < TWO31 && i < |rs| && rs[i].number < TWO31
    ensures HasRecord(LogBytes(tr, rs), 32 + |Body(rs[..i])|, rs[i])
    ensures |Body(rs[..i + 1])| == |Body(rs[..i])| + 4 + |rs[i].page|
  {
    hide LogBytes, Body, FromBigEndian, BigEndian, Sub, Digest, HasRecord;
    LogParts(tr, rs);
    RecordInBody(rs, i);
    RecordFound(LogBytes(tr, rs), Body(rs), Body(rs[..i]), rs[i], Body(rs[i + 1..]));
  }

  lemma RecordFound(log: seq<byte>, body: seq<byte>, before: seq<byte>, r: Record, after: seq<byte>)
    requires |log| == 32 + |body| && Sub(log, 32, |body|) == body && r.number < TWO31
    requires body == before + (BigEndian(r.number, 4) + r.page) + after
    ensures HasRecord(log, 32 + |before|, r)
  {
    hide FromBigEndian, BigEndian, Sub;
    NumberRoundTrip(r.number);
    Slices(log, before, BigEndian(r.number, 4), r.page, after);
  }

  lemma RecordInBody(rs: seq<Record>, i: nat)
    requires i < |rs|
    ensures Body(rs) == Body(rs[..i]) + (BigEndian(rs[i].number, 4) + rs[i].page) + Body(rs[i + 1..])
    ensures |Body(rs[..i + 1])| == |Body(rs[..i])| + 4 + |rs[i].page|
  {
    hide Body, BigEndian;
    assert rs[..i + 1] == rs[..i] + [rs[i]] && rs == rs[..i + 1] + rs[i + 1..];
    BodyOneMore(rs[..i], rs[i]);
    BodyJoin(rs[..i + 1], rs[i + 1..]);
  }

  lemma Slices(log: seq<byte>, a: seq<byte>, b: seq<byte>, c: seq<byte>, d: seq<byte>)
    requires |log| >= 32 && Sub(log, 32, |log| - 32) == a + (b + c) + d
    ensures var at := 32 + |a|;
      at + |b| + |c| <= |log| && Sub(log, at, |b|) == b && Sub(log, at + |b|, |c|) == c
  {
    var tail := Sub(log, 32, |log| - 32);
    assert |tail| == |a| + |b| + |c| + |d|;
    assert Sub(tail, |a|, |b|) == b;
    assert Sub(tail, |a| + |b|, |c|) == c;
    SubSub(log, 32, |tail|, |a|, |b|);
    SubSub(log, 32, |tail|, |a| + |b|, |c|);
  }

  // ---- Replaying

  /** The number of records a log says it has. One from 2^31 on is negative, and
      none is replayed. */
  function Count(log: seq<byte>): nat
    requires |log| >= 32
  {
    var n := FromBigEndian(Sub(log, 28, 4));
    if n < TWO31 then n else 0
  }

  /** Bytes written from position `at` on; a gap before them is filled with
      zeros. */
  function WriteAt(file: File, at: nat, bytes: seq<byte>): (r: File)
    ensures forall i: nat :: At(r, i) == if at <= i < at + |bytes| then bytes[i - at] else At(file, i)
  {
    var f := if |file| < at + |bytes| then file + ZeroBytes(at + |bytes| - |file|) else file;
    f[..at] + bytes + f[at + |bytes|..]
  }

  /** Where a replay has got to: in the file and in the log. It stops at a header
      it does not know. */
  datatype State = State(file: File, cursor: nat, position: nat, size: nat, stopped: bool)

  /** Where the next page is written. A number from 2^31 on is a negative one, to
      which the file does not seek. */
  function Seek(number: nat, size: nat, cursor: nat): nat {
    if number < TWO31 then Offset(number, size) else cursor
  }

  /** The bytes the next step reads are there. */
  predicate InBounds(st: State, log: seq<byte>) {
    && st.position + 4 + st.size <= |log|
    && (FromBigEndian(Sub(log, st.position, 4)) == 0 ==> st.position + 16 <= |log|)
  }

  /** One record: the page is written with the page size known so far; a header
      page then tells the real one. */
  function Step(st: State, log: seq<byte>): State
    requires InBounds(st, log)
  {
    var number, at := FromBigEndian(Sub(log, st.position, 4)), st.position + 4;
    var start := Seek(number, st.size, st.cursor);
    var file, cursor := WriteAt(st.file, start, Sub(log, at, st.size)), start + st.size;
    if number != 0 then State(file, cursor, at + st.size, st.size, false)
    else if Sub(log, at, 8) != FILE_IDENTIFIER then State(file, cursor, at, st.size, true)
    else
      var size := FromBigEndian(Sub(log, at + 8, 4));
      State(file, cursor, at + size, size, false)
  }

  /** A step, or none where the replay has stopped or the log ends. */
  ghost function Next(st: State, log: seq<byte>): State {
    if st.stopped || !InBounds(st, log) then st.(stopped := true) else Step(st, log)
  }

  /** The first `n` steps. */
  ghost function Replay(file: File, log: seq<byte>, n: nat, size: nat): State {
    if n == 0 then State(file, 0, 32, size, false) else Next(Replay(file, log, n - 1, size), log)
  }

  /** No step of a replay reads past the end of the log. */
  ghost predicate Complete(file: File, log: seq<byte>, n: nat, size: nat) {
    forall i: nat :: i < n && !Replay(file, log, i, size).stopped ==> InBounds(Replay(file, log, i, size), log)
  }

  /** A replay that stopped stays where it is. */
  lemma {:induction false} StoppedStays(file: File, log: seq<byte>, i: nat, n: nat, size: nat)
    requires i <= n && Replay(file, log, i, size).stopped
    ensures Replay(file, log, n, size) == Replay(file, log, i, size)
    decreases n
  {
    hide InBounds, Step;
    if i < n {
      StoppedStays(file, log, i, n - 1, size);
    }
  }

  /** The check recovery makes before it replays a log. */
  ghost predicate Passes(tr: Transform, log: seq<byte>) {
    && |log| >= 36 + HEADER_SIZE
    && Sub(log, 0, 8) == LOG_IDENTIFIER
    && Sub(log, 8, 20) == Digest(tr, Sub(log, 32, |log| - 32))
  }

  /** Long enough for one record, with the identifier, and with the digest of all
      that is behind the first 32 bytes. */
  ghost predicate SoundLog(tr: Transform, log: seq<byte>) {
    && |log| >= 236 && log[..8] == [0x72, 0x6C, 0x77, 0x61, 0x6C, 0x30, 0x2E, 0x30]
    && log[8..28] == Digest(tr, log[32..])
  }

  lemma PassesIsSound(tr: Transform, log: seq<byte>)
    ensures Passes(tr, log) <==> SoundLog(tr, log)
  {
    hide Digest;
    if |log| >= 32 {
      assert Sub(log, 32, |log| - 32) == log[32..];
      assert Sub(log, 0, 8) == log[..8];
    }
  }

  // ---- The log of a transaction

  /** A header page: identifier, page size, and nothing beyond `HEADER_SIZE`. */
  ghost predicate IsHeader(page: seq<byte>, size: nat) {
    && |page| == size && HEADER_SIZE <= size < TWO31 && page[..8] == [0x72, 0x6C, 0x69, 0x74, 0x65, 0x30, 0x2E, 0x30]
    && page[8..12] == BigEndian(size, 4)
    && forall i :: HEADER_SIZE <= i < size ==> page[i] == 0
  }

  /** The dirty pages of a transaction, in order of page number. Page 0 is the
      header. */
  ghost predicate WellFormed(rs: seq<Record>, size: nat) {
    && HEADER_SIZE <= size < TWO31 && |rs| < TWO31
    && (forall i :: 0 <= i < |rs| ==> rs[i].number < TWO31 && |rs[i].page| == size)
    && (forall i, j :: 0 <= i < j < |rs| ==> rs[i].number < rs[j].number)
    && (HasHeader(rs) ==> IsHeader(rs[0].page, size))
  }

  /** The header is the first page of the transaction. */
  ghost predicate HasHeader(rs: seq<Record>) {
    rs != [] && rs[0].number == 0
  }

  /** The pages written one after the other, of the first one only `first` bytes. */
  ghost function Put(file: File, rs: seq<Record>, first: nat, size: nat): File
    requires rs != [] ==> first <= |rs[0].page|
  {
    if rs == [] then file
    else
      var n := |rs| - 1;
      WriteAt(Put(file, rs[..n], first, size), Offset(rs[n].number, size),
              if n == 0 then rs[n].page[..first] else rs[n].page)
  }

  lemma PutMore(file: File, rs: seq<Record>, first: nat, size: nat, n: nat)
    requires n < |rs| && first <= |rs[0].page|
    ensures Put(file, rs[..n + 1], first, size)
         == WriteAt(Put(file, rs[..n], first, size), Offset(rs[n].number, size),
                    if n == 0 then rs[n].page[..first] else rs[n].page)
  {
    assert rs[..n + 1][..n] == rs[..n];
  }

  /** Where a replay of a transaction is after `n` records. */
  ghost function After(rs: seq<Record>, size: nat, file: File, first: nat, n: nat): State
    requires n <= |rs| && (rs != [] ==> first <= |rs[0].page|)
  {
    State(Put(file, rs[..n], first, size), Cursor(rs, size, first, n), 32 + |Body(rs[..n])|,
          if n == 0 then first else size, false)
  }

  /** The end of what record `n - 1` wrote. */
  ghost function Cursor(rs: seq<Record>, size: nat, first: nat, n: nat): nat
    requires n <= |rs|
  {
    if n == 0 then 0 else Offset(rs[n - 1].number, size) + if n == 1 then first else size
  }

  /** What a replay starts from is the real page size, or else the first record
      is a header, which tells it. */
  ghost predicate Starts(rs: seq<Record>, size: nat, first: nat) {
    HEADER_SIZE <= first <= size && (first == size || HasHeader(rs))
  }

  /** Replaying the records of a transaction. */
  lemma {:induction false} ReplayPuts(tr: Transform, rs: seq<Record>, size: nat, file: File, first: nat, n: nat)
    requires WellFormed(rs, size) && Starts(rs, size, first) && n <= |rs|
    ensures Replay(file, LogBytes(tr, rs), n, first) == After(rs, size, file, first, n)
    decreases n
  {
    hide Next, LogBytes, After, WellFormed, Starts;
    if n == 0 {
      BeforeReplay(rs, size, file, first);
    } else {
      ReplayPuts(tr, rs, size, file, first, n - 1);
      ReplayOne(tr, rs, size, file, first, n - 1);
    }
  }

  lemma BeforeReplay(rs: seq<Record>, size: nat, file: File, first: nat)
    requires WellFormed(rs, size) && Starts(rs, size, first)
    ensures After(rs, size, file, first, 0) == State(file, 0, 32, first, false)
  {
    assert rs[..0] == [];
  }

  lemma ReplayOne(tr: Transform, rs: seq<Record>, size: nat, file: File, first: nat, n: nat)
    requires WellFormed(rs, size) && Starts(rs, size, first) && n < |rs|
    ensures var st := After(rs, size, file, first, n);
      && InBounds(st, LogBytes(tr, rs)) && !st.stopped
      && Next(st, LogBytes(tr, rs)) == After(rs, size, file, first, n + 1)
  {
    hide InBounds, Step, LogBytes, Body, Put;
    var st := After(rs, size, file, first, n);
    StepFits(tr, rs, size, st, n);
    StepPuts(tr, rs, size, st, first, n);
    PutMore(file, rs, first, size, n);
  }

  /** The next record is there as a whole. */
  lemma StepFits(tr: Transform, rs: seq<Record>, size: nat, st: State, n: nat)
    requires WellFormed(rs, size) && n < |rs|
    requires st.position == 32 + |Body(rs[..n])| && HEADER_SIZE <= st.size <= size
    ensures InBounds(st, LogBytes(tr, rs))
  {
    hide LogBytes, Body, FromBigEndian, Digest, Sub;
    RecordAt(tr, rs, n);
  }

  lemma StepPuts(tr: Transform, rs: seq<Record>, size: nat, st: State, first: nat, n: nat)
    requires WellFormed(rs, size) && Starts(rs, size, first) && n < |rs|
    requires st.position == 32 + |Body(rs[..n])| && st.size == (if n == 0 then first else size)
    requires InBounds(st, LogBytes(tr, rs))
    ensures Step(st, LogBytes(tr, rs))
         == State(WriteAt(st.file, Offset(rs[n].number, size), if n == 0 then rs[n].page[..first] else rs[n].page),
                  Cursor(rs, size, first, n + 1), 32 + |Body(rs[..n + 1])|, size, false)
  {
    hide LogBytes, Body, Step, InBounds, HasRecord, Offset, IsHeader;
    RecordAt(tr, rs, n);
    assert n > 0 ==> rs[0].number < rs[n].number;
    if rs[n].number == 0 {
      assert rs[0] == Record(0, rs[0].page);
      StepHeader(st, LogBytes(tr, rs), rs[0].page, size);
    } else {
      assert rs[n].page[..size] == rs[n].page;
      StepPage(st, LogBytes(tr, rs), rs[n]);
    }
  }

  lemma StepPage(st: State, log: seq<byte>, r: Record)
    requires InBounds(st, log) && st.size == |r.page| && 0 < r.number < TWO31 && HasRecord(log, st.position, r)
    ensures Step(st, log)
         == State(WriteAt(st.file, Offset(r.number, st.size), r.page), Offset(r.number, st.size) + st.size,
                  st.position + 4 + st.size, st.size, false)
  {
    hide WriteAt, Offset, FromBigEndian, Sub;
  }

  lemma StepHeader(st: State, log: seq<byte>, page: seq<byte>, size: nat)
    requires InBounds(st, log) && IsHeader(page, size) && st.size <= size &&
      HasRecord(log, st.position, Record(0, page))
    ensures Step(st, log)
         == State(WriteAt(st.file, Offset(0, size), page[..st.size]), Offset(0, size) + st.size,
                  st.position + 4 + size, size, false)
  {
    hide IsHeader, Sub, FromBigEndian, WriteAt;
    var at := st.position + 4;
    HeaderSize(page, size);
    SubSub(log, at, size, 0, st.size);
    SubStart(page, st.size);
    HeaderAt(log, at, page, size);
  }

  lemma HeaderSize(page: seq<byte>, size: nat)
    requires IsHeader(page, size)
    ensures |page| == size >= HEADER_SIZE
  {}

  lemma SubStart(page: seq<byte>, n: nat)
    requires n <= |page|
    ensures Sub(page, 0, n) == page[..n]
  {}

  lemma HeaderAt(log: seq<byte>, at: nat, page: seq<byte>, size: nat)
    requires at + size <= |log| && IsHeader(page, size) && Sub(log, at, size) == page
    ensures Sub(log, at, 8) == FILE_IDENTIFIER && FromBigEndian(Sub(log, at + 8, 4)) == size
  {
    NumberRoundTrip(size);
    SubSub(log, at, size, 0, 8);
    SubSub(log, at, size, 8, 4);
    assert Sub(page, 0, 8) == page[..8] && Sub(page, 8, 4) == page[8..12];
  }

  /** The log of a transaction is complete. */
  lemma LogComplete(tr: Transform, rs: seq<Record>, size: nat, file: File, first: nat)
    requires WellFormed(rs, size) && Starts(rs, size, first)
    ensures Complete(file, LogBytes(tr, rs), |rs|, first)
  {
    hide LogBytes, InBounds, After, Replay, WellFormed, Starts;
    forall i: nat | i < |rs| ensures InBounds(Replay(file, LogBytes(tr, rs), i, first), LogBytes(tr, rs)) {
      ReplayPuts(tr, rs, size, file, first, i);
      ReplayOne(tr, rs, size, file, first, i);
    }
  }
}
