// All or nothing: whatever a crash during a commit leaves behind, recovery makes
// it the old bytes or the new ones.
module WalCrash {
  import opened Bytes
  import opened Sha1
  import opened WalFormat
  import opened Wrappers

  /** What is on disk: the bytes of the file and those of the log, if any. */
  datatype Snapshot = Snapshot(file: File, log: Option<seq<byte>>)

  /** Byte `i` of the file belongs to page `p`. */
  ghost predicate InPage(p: nat, size: nat, i: nat) {
    Offset(p, size) <= i < Offset(p, size) + size
  }

  ghost predicate Touches(rs: seq<Record>, size: nat, i: nat) {
    exists k :: 0 <= k < |rs| && InPage(rs[k].number, size, i)
  }

  ghost predicate SameBytes(a: File, b: File) {
    forall i: nat :: At(a, i) == At(b, i)
  }

  /** Nothing beyond the contents of a header. */
  ghost predicate ZeroHeader(file: File, size: nat) {
    forall i: nat :: HEADER_SIZE <= i < size ==> At(file, i) == 0
  }

  /** `t` is `file` with the pages of the transaction in any state, torn or not,
      but for what a header page has beyond its contents. */
  ghost predicate Torn(file: File, t: File, rs: seq<Record>, size: nat) {
    && (forall i: nat :: !Touches(rs, size, i) ==> At(t, i) == At(file, i))
    && (HasHeader(rs) ==> ZeroHeader(t, size))
  }

  /** The file after the transaction. */
  ghost function Committed(file: File, rs: seq<Record>, size: nat): File
    requires rs != [] ==> size <= |rs[0].page|
  {
    Put(file, rs, size, size)
  }

  /** What recovery leaves. */
  ghost function Recovered(tr: Transform, d: Snapshot): File {
    match d.log
    case None => d.file
    case Some(log) =>
      if Passes(tr, log) then Replay(d.file, log, Count(log), HEADER_SIZE).file else d.file
  }

  /** A commit has got this far: the log is being written, or it is complete and
      the pages are being written, or the pages are written and the log goes. */
  ghost predicate InCommit(tr: Transform, file: File, rs: seq<Record>, size: nat, d: Snapshot)
    requires WellFormed(rs, size)
  {
    var log := LogBytes(tr, rs);
    || (d.file == file && (d.log == None || d.log.value <= log))
    || (Torn(file, d.file, rs, size) && d.log == Some(log))
    || (d.file == Committed(file, rs, size) && (d.log == None || d.log == Some([])))
  }

  /** No stretch of the records of a transaction from their start has the digest
      of them all; one without room for a record may. */
  ghost predicate NoPrefixCollides(tr: Transform, rs: seq<Record>) {
    forall n: nat :: HEADER_SIZE + 4 <= n < |Body(rs)| ==> Digest(tr, Body(rs)[..n]) != Digest(tr, Body(rs))
  }

  /** A log cut short does not look complete. */
  ghost predicate NoPrefixPasses(tr: Transform, log: seq<byte>) {
    forall l :: l < log ==> !Passes(tr, l)
  }

  /** Recovery starts with the page size of a header. It knows the real one when
      that is the same, or when the first record is the header. */
  ghost predicate Recoverable(rs: seq<Record>, size: nat) {
    rs == [] || HasHeader(rs) || size == HEADER_SIZE
  }

  // ---- What is written

  lemma NextPage(p: nat, size: nat)
    ensures Offset(p + 1, size) == Offset(p, size) + size
  {}

  lemma {:induction false} PagesInOrder(p: nat, q: nat, size: nat)
    ensures p < q ==> Offset(p, size) + size <= Offset(q, size)
    decreases q
  {
    hide Offset;
    if p < q {
      NextPage(q - 1, size);
      PagesInOrder(p, q - 1, size);
    }
  }

  /** A byte of the file once the pages are written, of the first one only
      `first` bytes. */
  ghost function Written(file: File, rs: seq<Record>, first: nat, size: nat, k: nat, i: nat): byte
    requires k < |rs| && |rs[k].page| == size && InPage(rs[k].number, size, i)
  {
    var j := i - Offset(rs[k].number, size);
    if k == 0 && j >= first then At(file, i) else rs[k].page[j]
  }

  lemma WellFormedStart(rs: seq<Record>, size: nat, n: nat)
    requires WellFormed(rs, size) && n <= |rs|
    ensures WellFormed(rs[..n], size)
  {
    hide IsHeader;
  }

  lemma {:induction false} PutElsewhere(file: File, rs: seq<Record>, first: nat, size: nat, i: nat)
    requires WellFormed(rs, size) && first <= size && !Touches(rs, size, i)
    ensures At(Put(file, rs, first, size), i) == At(file, i)
    decreases |rs|
  {
    hide IsHeader, Offset, At;
    if rs != [] {
      var n := |rs| - 1;
      WellFormedStart(rs, size, n);
      assert !Touches(rs[..n], size, i) && !InPage(rs[n].number, size, i);
      PutElsewhere(file, rs[..n], first, size, i);
    }
  }

  lemma {:induction false} PutThere(file: File, rs: seq<Record>, first: nat, size: nat, k: nat, i: nat)
    requires WellFormed(rs, size) && first <= size && k < |rs| && InPage(rs[k].number, size, i)
    ensures At(Put(file, rs, first, size), i) == Written(file, rs, first, size, k, i)
    decreases |rs|
  {
    hide IsHeader, Offset, At;
    var n := |rs| - 1;
    WellFormedStart(rs, size, n);
    if k < n {
      PutThere(file, rs[..n], first, size, k, i);
      NotInOther(rs, size, k, n, i);
    } else {
      forall j | 0 <= j < n ensures !InPage(rs[..n][j].number, size, i) {
        NotInOther(rs, size, n, j, i);
      }
      PutElsewhere(file, rs[..n], first, size, i);
    }
  }

  lemma NotInOther(rs: seq<Record>, size: nat, k: nat, j: nat, i: nat)
    requires WellFormed(rs, size) && k < |rs| && j < |rs| && j != k && InPage(rs[k].number, size, i)
    ensures !InPage(rs[j].number, size, i)
  {
    hide IsHeader, Offset;
    PagesInOrder(rs[j].number, rs[k].number, size);
    PagesInOrder(rs[k].number, rs[j].number, size);
    assert if j < k then rs[j].number < rs[k].number else rs[k].number < rs[j].number;
  }

  /** Beyond what a header says, its page is zero. */
  lemma HeaderZeros(rs: seq<Record>, size: nat, i: nat)
    requires WellFormed(rs, size) && HasHeader(rs) && HEADER_SIZE <= i < size
    ensures InPage(rs[0].number, size, i) && Offset(rs[0].number, size) == 0 && rs[0].page[i] == 0
  {}

  /** Writing all pages of the transaction over any mixture of old and new ones
      gives the new ones. */
  lemma OverTorn(file: File, t: File, rs: seq<Record>, size: nat, first: nat)
    requires WellFormed(rs, size) && Starts(rs, size, first) && Torn(file, t, rs, size)
    ensures SameBytes(Put(t, rs, first, size), Committed(file, rs, size))
  {
    hide WellFormed, Torn, At, Put, InPage, IsHeader;
    FirstPage(rs, size, 0);
    forall i: nat ensures At(Put(t, rs, first, size), i) == At(Committed(file, rs, size), i) {
      OverTornAt(file, t, rs, size, first, i);
    }
  }

  lemma OverTornAt(file: File, t: File, rs: seq<Record>, size: nat, first: nat, i: nat)
    requires WellFormed(rs, size) && Starts(rs, size, first) && Torn(file, t, rs, size)
    ensures rs != [] ==> |rs[0].page| == size
    ensures At(Put(t, rs, first, size), i) == At(Put(file, rs, size, size), i)
  {
    hide At, Put, Offset, IsHeader;
    if Touches(rs, size, i) {
      var k :| 0 <= k < |rs| && InPage(rs[k].number, size, i);
      PutThere(t, rs, first, size, k, i);
      PutThere(file, rs, size, size, k, i);
      if k == 0 && first <= i - Offset(rs[0].number, size) {
        OffsetOfHeader(rs, size);
        HeaderZeros(rs, size, i);
      }
    } else {
      PutElsewhere(t, rs, first, size, i);
      PutElsewhere(file, rs, size, size, i);
    }
  }

  lemma OffsetOfHeader(rs: seq<Record>, size: nat)
    ensures HasHeader(rs) ==> Offset(rs[0].number, size) == 0
  {}

  // ---- Logs that are refused

  /** A log cut short and the stretch of the records it still has. */
  lemma CutLog(tr: Transform, rs: seq<Record>, n: nat)
    requires |rs| < TWO31 && n < |Body(rs)|
    ensures |LogBytes(tr, rs)| == 32 + |Body(rs)|
    ensures Passes(tr, LogBytes(tr, rs)[..32 + n]) <==>
      n >= HEADER_SIZE + 4 && Digest(tr, Body(rs)[..n]) == Digest(tr, Body(rs))
  {
    hide LogBytes, Body, Digest, Passes, FromBigEndian;
    LogParts(tr, rs);
    var log, l := LogBytes(tr, rs), LogBytes(tr, rs)[..32 + n];
    assert l[8..28] == Sub(log, 8, 20) && l[..8] == Sub(log, 0, 8);
    assert l[32..] == Sub(log, 32, |Body(rs)|)[..n];
    PassesIsSound(tr, l);
  }

  /** A crash while the log is written goes unnoticed exactly if the digests
      collide. */
  lemma NoPrefixIsTaken(tr: Transform, rs: seq<Record>, size: nat)
    requires WellFormed(rs, size)
    ensures NoPrefixPasses(tr, LogBytes(tr, rs)) <==> NoPrefixCollides(tr, rs)
  {
    hide LogBytes, Body, Digest, Passes, WellFormed;
    var log := LogBytes(tr, rs);
    assert |rs| < TWO31 by {
      FewRecords(rs, size);
    }
    LogLength(tr, rs);
    if NoPrefixCollides(tr, rs) {
      forall l | l < log ensures !Passes(tr, l) {
        if |l| >= 32 {
          CutLog(tr, rs, |l| - 32);
          assert l == log[..|l|];
        } else {
          PassesIsSound(tr, l);
        }
      }
    }
    if NoPrefixPasses(tr, log) {
      forall n: nat | HEADER_SIZE + 4 <= n < |Body(rs)| ensures Digest(tr, Body(rs)[..n]) != Digest(tr, Body(rs)) {
        CutLog(tr, rs, n);
        assert log[..32 + n] < log;
      }
    }
  }

  lemma FewRecords(rs: seq<Record>, size: nat)
    requires WellFormed(rs, size)
    ensures |rs| < TWO31
  {}

  lemma LogLength(tr: Transform, rs: seq<Record>)
    requires |rs| < TWO31
    ensures |LogBytes(tr, rs)| == 32 + |Body(rs)|
  {
    hide LogBytes, Body, Digest, FromBigEndian, Sub;
    LogParts(tr, rs);
  }

  /** A log whose records were altered, to others with another digest, is refused,
      and the file stays as it is. */
  lemma AlteredIsRefused(tr: Transform, file: File, rs: seq<Record>, altered: seq<byte>)
    requires |rs| < TWO31 && Digest(tr, altered) != Digest(tr, Body(rs))
    ensures |LogBytes(tr, rs)| >= 32
    ensures var log := LogBytes(tr, rs)[..32] + altered;
      !Passes(tr, log) && Recovered(tr, Snapshot(file, Some(log))) == file
  {
    hide LogBytes, Body, Digest, Passes, FromBigEndian;
    LogParts(tr, rs);
    var log := LogBytes(tr, rs)[..32] + altered;
    assert log[8..28] == Sub(LogBytes(tr, rs), 8, 20) && log[32..] == altered;
    PassesIsSound(tr, log);
  }

  // ---- Recovery after a crash

  /** The complete log passes the check and replays to the new pages. */
  lemma CompleteLog(tr: Transform, file: File, t: File, rs: seq<Record>, size: nat)
    requires WellFormed(rs, size) && Torn(file, t, rs, size) && rs != [] && (HasHeader(rs) || size == HEADER_SIZE)
    ensures Passes(tr, LogBytes(tr, rs))
    ensures SameBytes(Recovered(tr, Snapshot(t, Some(LogBytes(tr, rs)))), Committed(file, rs, size))
  {
    hide LogBytes, Torn, SameBytes, Passes, IsHeader, Body, Digest, FromBigEndian, Replay, Put;
    LogPasses(tr, rs, size);
    LogParts(tr, rs);
    ReplayPuts(tr, rs, size, t, HEADER_SIZE, |rs|);
    assert rs[..|rs|] == rs;
    OverTorn(file, t, rs, size, HEADER_SIZE);
  }

  lemma LogPasses(tr: Transform, rs: seq<Record>, size: nat)
    requires WellFormed(rs, size) && rs != []
    ensures Passes(tr, LogBytes(tr, rs))
  {
    hide LogBytes, Body, Digest, Sub, BigEndian, FromBigEndian;
    LogParts(tr, rs);
    RecordInBody(rs, 0);
  }

  lemma SameAsItself(file: File)
    ensures SameBytes(file, file)
  {}

  /** Without pages, nothing is torn and the log is too short to be one. */
  lemma EmptyCommit(tr: Transform, file: File, t: File, size: nat)
    ensures Torn(file, t, [], size) ==> SameBytes(t, file)
    ensures |LogBytes(tr, [])| == 32
    ensures forall l :: l <= LogBytes(tr, []) ==> !Passes(tr, l)
  {
    DigestLength(tr, []);
    assert Torn(file, t, [], size) ==> forall i: nat :: !Touches([], size, i);
  }

  lemma NothingReplayed(tr: Transform, d: Snapshot)
    requires d.log == None || !Passes(tr, d.log.value)
    ensures Recovered(tr, d) == d.file
  {}

  lemma EmptyFails(tr: Transform)
    ensures !Passes(tr, [])
  {}

  lemma ProperOrWhole(l: seq<byte>, log: seq<byte>)
    requires l <= log
    ensures l == log || l < log
  {}

  lemma OwnTorn(file: File, rs: seq<Record>, size: nat)
    requires HasHeader(rs) ==> ZeroHeader(file, size)
    ensures Torn(file, file, rs, size)
  {}

  /** Wherever a commit stops, recovery yields the old bytes or the new ones. */
  lemma AllOrNothing(tr: Transform, file: File, rs: seq<Record>, size: nat, d: Snapshot)
    requires WellFormed(rs, size) && (HasHeader(rs) ==> ZeroHeader(file, size)) && Recoverable(rs, size)
    requires NoPrefixCollides(tr, rs) && InCommit(tr, file, rs, size, d)
    ensures SameBytes(Recovered(tr, d), file) || SameBytes(Recovered(tr, d), Committed(file, rs, size))
  {
    hide LogBytes, SameBytes, Recovered, WellFormed, HasHeader, Put, Passes, Torn, ZeroHeader, NoPrefixCollides;
    var log := LogBytes(tr, rs);
    NoPrefixIsTaken(tr, rs, size);
    EmptyFails(tr);
    SameAsItself(d.file);
    OwnTorn(file, rs, size);
    if d.log.Some? && d.log.value <= log {
      ProperOrWhole(d.log.value, log);
    }
    if rs == [] {
      EmptyCommit(tr, file, d.file, size);
      SameAsItself(file);
      NothingReplayedOf(tr, file, d, log);
    } else if d.log == Some(log) && (d.file == file || Torn(file, d.file, rs, size)) {
      CompleteLog(tr, file, d.file, rs, size);
    } else {
      NothingReplayed(tr, d);
    }
  }

  lemma NothingReplayedOf(tr: Transform, file: File, d: Snapshot, log: seq<byte>)
    requires forall l :: l <= log ==> !Passes(tr, l)
    requires d.log.Some? ==> d.log.value <= log || d.log.value == []
    ensures Recovered(tr, d) == d.file
  {
    hide Passes, Replay;
    assert [] <= log;
  }

  // ---- A crash during recovery

  /** Every stage of writing the pages, by a commit or by a recovery. */
  lemma PutTorn(file: File, t: File, rs: seq<Record>, size: nat, first: nat, n: nat)
    requires WellFormed(rs, size) && Starts(rs, size, first) && Torn(file, t, rs, size) && n <= |rs|
    ensures rs != [] ==> |rs[0].page| == size
    ensures Torn(file, Put(t, rs[..n], first, size), rs, size)
  {
    hide WellFormed, At, Put, InPage, IsHeader, Offset;
    WellFormedStart(rs, size, n);
    FirstPage(rs, size, n);
    forall i: nat | !Touches(rs, size, i) ensures At(Put(t, rs[..n], first, size), i) == At(file, i) {
      assert !Touches(rs[..n], size, i);
      PutElsewhere(t, rs[..n], first, size, i);
    }
    if HasHeader(rs) {
      forall i: nat | HEADER_SIZE <= i < size ensures At(Put(t, rs[..n], first, size), i) == 0 {
        HeaderStaysZero(t, rs, size, first, n, i);
      }
    }
  }

  lemma FirstPage(rs: seq<Record>, size: nat, n: nat)
    requires WellFormed(rs, size) && n <= |rs|
    ensures rs != [] ==> |rs[0].page| == size
    ensures rs[..n] != [] ==> |rs[..n][0].page| == size
  {}

  lemma HeaderStaysZero(t: File, rs: seq<Record>, size: nat, first: nat, n: nat, i: nat)
    requires WellFormed(rs, size) && HasHeader(rs) && ZeroHeader(t, size) && n <= |rs|
    requires first <= size && HEADER_SIZE <= i < size
    ensures rs[..n] != [] ==> |rs[..n][0].page| == size
    ensures At(Put(t, rs[..n], first, size), i) == 0
  {
    hide At, IsHeader, InPage, Offset;
    if n == 0 {
      assert rs[..0] == [];
    } else {
      WellFormedStart(rs, size, n);
      HeaderZeros(rs, size, i);
      PutThere(t, rs[..n], first, size, 0, i);
    }
  }

  /** Every stage of a recovery from a complete log recovers like the first. */
  lemma RecoveryRepeats(tr: Transform, file: File, t: File, rs: seq<Record>, size: nat, i: nat)
    requires WellFormed(rs, size) && Torn(file, t, rs, size) && i <= |rs|
    requires rs != [] && (HasHeader(rs) || size == HEADER_SIZE)
    ensures var log := LogBytes(tr, rs);
      var stage := Snapshot(Replay(t, log, i, HEADER_SIZE).file, Some(log));
      && InCommit(tr, file, rs, size, stage)
      && SameBytes(Recovered(tr, stage), Committed(file, rs, size))
  {
    hide LogBytes, Put, Torn, Recovered, SameBytes, IsHeader, Replay, Body, Passes;
    ReplayPuts(tr, rs, size, t, HEADER_SIZE, i);
    PutTorn(file, t, rs, size, HEADER_SIZE, i);
    CompleteLog(tr, file, Put(t, rs[..i], HEADER_SIZE, size), rs, size);
  }

  /** So does every stage of the commit itself. */
  lemma CommitTorn(file: File, rs: seq<Record>, size: nat, i: nat)
    requires WellFormed(rs, size) && (HasHeader(rs) ==> ZeroHeader(file, size)) && i <= |rs|
    ensures rs != [] ==> |rs[0].page| == size
    ensures Torn(file, Put(file, rs[..i], size, size), rs, size)
  {
    hide Put, Torn, IsHeader;
    OwnTorn(file, rs, size);
    PutTorn(file, file, rs, size, size, i);
  }
}
