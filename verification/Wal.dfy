// Writing, applying and recovering from the write-ahead log, one durable step at
// a time.
module Wal {
  import opened Bytes
  import opened Sha1
  import opened WalCrash
  import opened WalFormat
  import opened Wrappers

  /** Copies bytes into an array. */
  method Blit(data: array<byte>, at: nat, bytes: seq<byte>)
    requires at + |bytes| <= data.Length
    modifies data
    ensures data[..] == old(data[..at]) + bytes + old(data[at + |bytes|..])
  {
    forall k | 0 <= k < |bytes| {
      data[at + k] := bytes[k];
    }
  }

  /** Two stretches copied one behind the other. */
  lemma Blitted(a: seq<byte>, b: seq<byte>, c: seq<byte>, at: nat, x: seq<byte>, y: seq<byte>)
    requires at + |x| + |y| <= |a| && b == a[..at] + x + a[at + |x|..]
    requires c == b[..at + |x|] + y + b[at + |x| + |y|..]
    ensures |c| == |a| && c[..at + |x| + |y|] == a[..at] + (x + y) && c[at..at + |x| + |y|] == x + y
  {
    assert b[..at + |x|] == a[..at] + x;
    assert c[..at + |x| + |y|] == a[..at] + (x + y);
    assert c[at..at + |x| + |y|] == c[..at + |x| + |y|][at..];
  }

  /** One record at `position`, hashed as it is written. */
  method AddRecord(data: array<byte>, position: nat, r: Record, sha: Context)
    requires position + 4 + |r.page| <= data.Length && |r.page| < TWO31
    requires sha.Valid() && sha.buffer != data
    modifies data, sha, sha.buffer
    ensures data[..position + 4 + |r.page|] == old(data[..position]) + RecordBytes(r)
    ensures sha.Valid() && sha.message == old(sha.message) + RecordBytes(r)
  {
    hide Context.Valid, BigEndian;
    ghost var a := data[..];
    Blit(data, position, BigEndian(r.number, 4));
    ghost var b := data[..];
    Blit(data, position + 4, r.page);
    ghost var c := data[..];
    Blitted(a, b, c, position, BigEndian(r.number, 4), r.page);
    assert data[position..position + 4 + |r.page|] == c[position..position + 4 + |r.page|];
    sha.Update(data[position..position + 4 + |r.page|]);
    assert data[..position + 4 + |r.page|] == c[..position + 4 + |r.page|];
  }

  /** All records behind the 32 bytes at the start. */
  method AddRecords(data: array<byte>, rs: seq<Record>, size: nat, sha: Context)
    requires WellFormed(rs, size) && data.Length == 32 + |Body(rs)|
    requires sha.Valid() && sha.message == [] && sha.buffer != data
    modifies data, sha, sha.buffer
    ensures data[..] == old(data[..32]) + Body(rs)
    ensures sha.Valid() && sha.message == Body(rs)
  {
    hide WellFormed, Body, Context.Valid, RecordBytes, BodyTo;
    ghost var head := data[..32];
    var position := 32;
    BodyStarts(rs);
    for i := 0 to |rs|
      invariant position == 32 + |BodyTo(rs, i)| <= data.Length
      invariant data[..position] == head + BodyTo(rs, i)
      invariant sha.Valid() && sha.message == BodyTo(rs, i)
    {
      BodyGrows(rs, i, size);
      AddRecord(data, position, rs[i], sha);
      assert head + BodyTo(rs, i) + RecordBytes(rs[i]) == head + BodyTo(rs, i + 1);
      position := position + 4 + |rs[i].page|;
    }
    assert data[..position] == data[..];
  }

  /** The bytes of the first `i` records. */
  ghost function BodyTo(rs: seq<Record>, i: nat): seq<byte>
    requires i <= |rs|
  {
    Body(rs[..i])
  }

  lemma BodyStarts(rs: seq<Record>)
    ensures BodyTo(rs, 0) == [] && BodyTo(rs, |rs|) == Body(rs)
  {
    assert rs[..|rs|] == rs;
  }

  /** The identifier, room for a digest, the number of records, and their room. */
  method StartLog(rs: seq<Record>, size: nat) returns (data: array<byte>)
    requires WellFormed(rs, size)
    ensures fresh(data) && data.Length == 32 + |Body(rs)|
    ensures data[..32][..8] == LOG_IDENTIFIER && data[..32][28..] == BigEndian(|rs|, 4)
  {
    hide IsHeader, Body, BigEndian;
    BodyLength(rs, size);
    data := new byte[|rs| * (size + 4) + 32](_ => 0);
    ghost var a := data[..];
    Blit(data, 0, LOG_IDENTIFIER);
    ghost var b := data[..];
    Blit(data, 28, BigEndian(|rs|, 4));
    Started(a, b, data[..], LOG_IDENTIFIER, BigEndian(|rs|, 4));
    assert data[..32] == data[..][..32];
  }

  lemma Started(a: seq<byte>, b: seq<byte>, c: seq<byte>, x: seq<byte>, y: seq<byte>)
    requires |a| >= 32 && |x| == 8 && |y| == 4
    requires b == a[..0] + x + a[8..] && c == b[..28] + y + b[32..]
    ensures |c| == |a| && c[..32][..8] == x && c[..32][28..] == y
  {}

  /** The log of a transaction, built by position; the digest runs along and is
      put in front of the records at the end. */
  method CreateWalData(tr: Transform, rs: seq<Record>, size: nat) returns (data: array<byte>)
    requires WellFormed(rs, size)
    ensures fresh(data) && data[..] == LogBytes(tr, rs)
  {
    hide *;
    var sha := new Context(tr);
    data := StartLog(rs, size);
    ghost var head := data[..32];
    AddRecords(data, rs, size, sha);
    ghost var was := data[..];
    var digest := sha.Final();
    Blit(data, 8, digest);
    LogIs(tr, rs, head, digest, was, data[..]);
  }

  lemma BodyGrows(rs: seq<Record>, i: nat, size: nat)
    requires WellFormed(rs, size) && i < |rs|
    ensures |rs[i].page| == size < TWO31 && BodyTo(rs, i + 1) == BodyTo(rs, i) + RecordBytes(rs[i])
    ensures |BodyTo(rs, i + 1)| == |BodyTo(rs, i)| + 4 + |rs[i].page| <= |Body(rs)|
  {
    hide Body, RecordBytes, IsHeader;
    RecordInBody(rs, i);
    assert rs[..i + 1] == rs[..i] + [rs[i]];
    BodyOneMore(rs[..i], rs[i]);
    BodyJoin(rs[..i + 1], rs[i + 1..]);
    assert rs == rs[..i + 1] + rs[i + 1..];
  }

  lemma LogIs(tr: Transform, rs: seq<Record>, head: seq<byte>, digest: seq<byte>, was: seq<byte>, now: seq<byte>)
    requires |head| == 32 && head[..8] == LOG_IDENTIFIER && head[28..] == BigEndian(|rs|, 4)
    requires was == head + Body(rs) && digest == Digest(tr, Body(rs)) && |digest| == 20
    requires now == was[..8] + digest + was[28..]
    ensures now == LogBytes(tr, rs)
  {
    hide Body, Digest, BigEndian;
    assert was[28..] == head[28..] + Body(rs);
  }

  /** The files of a database. Every step that lasts is noted. */
  class Disk {
    var file: File
    var log: Option<seq<byte>>
    ghost var history: seq<Snapshot>

    constructor (f: File)
      ensures file == f && log == None && history == []
    {
      file, log, history := f, None, [];
    }

    method SetLog(l: Option<seq<byte>>)
      modifies this
      ensures file == old(file) && log == l && history == old(history) + [Snapshot(file, log)]
    {
      log := l;
      history := history + [Snapshot(file, log)];
    }

    method WriteBytes(at: nat, bytes: seq<byte>)
      modifies this
      ensures file == WriteAt(old(file), at, bytes) && log == old(log) &&
        history == old(history) + [Snapshot(file, log)]
    {
      file := WriteAt(file, at, bytes);
      history := history + [Snapshot(file, log)];
    }

    /** Replays a log into the file: the program's own without a check, one found
        on disk only if it passes. */
    method ApplyWalData(tr: Transform, data: seq<byte>, skipCheck: bool, size: nat) returns (applied: bool)
      requires if skipCheck then |data| >= 32 else |data| <= TWO32 - 64 && size == HEADER_SIZE
      requires skipCheck || Passes(tr, data) ==> |data| >= 32 && Complete(file, data, Count(data), size)
      modifies this
      ensures log == old(log) && applied == (skipCheck || Passes(tr, data))
      ensures !applied ==> file == old(file) && history == old(history)
      ensures applied ==> |data| >= 32 && file == Replay(old(file), data, Count(data), size).file
      ensures applied ==> |data| >= 32 && Staged(old(history), history, old(file), data, Count(data), size, log)
    {
      if !skipCheck {
        var passes := Check(tr, data, size);
        if !passes {
          return false;
        }
      }
      ReplayAll(data, size);
      return true;
    }

    /** One record of a log: its page is written, and the state moves on. */
    method ReplayOne(data: seq<byte>, st: State, ghost start: File, ghost was: seq<Snapshot>, ghost i: nat,
                     ghost count: nat, ghost size: nat) returns (next: State)
      requires Complete(start, data, count, size) && i < count && !st.stopped
      requires st == Replay(start, data, i, size) && file == st.file
      requires Staged(was, history, start, data, count, size, log)
      modifies this
      ensures log == old(log) && next == Replay(start, data, i + 1, size) && file == next.file
      ensures Staged(was, history, start, data, count, size, log)
    {
      NextStep(start, data, i, count, size);
      StagedMore(was, history, start, data, count, size, log, i + 1);
      hide InBounds, Step, WriteAt, Replay, Staged, Complete, FromBigEndian, Sub, Seek;
      next := Step(st, data);
      WriteBytes(Seek(FromBigEndian(Sub(data, st.position, 4)), st.size, st.cursor),
                 Sub(data, st.position + 4, st.size));
    }

    method ReplayAll(data: seq<byte>, size: nat)
      requires |data| >= 32 && Complete(file, data, Count(data), size)
      modifies this
      ensures log == old(log) && file == Replay(old(file), data, Count(data), size).file
      ensures Staged(old(history), history, old(file), data, Count(data), size, log)
    {
      ghost var start, was := file, history;
      var count := Count(data);
      hide Count, Replay, Staged, Complete;
      NothingStaged(history, start, data, count, size, log);
      var st, i: nat := State(file, 0, 32, size, false), 0;
      while i < count
        invariant i <= count && log == old(log) && !st.stopped
        invariant st == Replay(start, data, i, size) && file == st.file
        invariant Staged(was, history, start, data, count, size, log)
      {
        st := ReplayOne(data, st, start, was, i, count, size);
        if st.stopped {
          StoppedStays(start, data, i + 1, count, size);
          return;
        }
        i := i + 1;
      }
    }

    /** Commits the pages of a transaction: the log is written, applied, emptied
        and removed. Wherever that stops, it stops within the commit. */
    method WriteApplyWal(tr: Transform, rs: seq<Record>, size: nat)
      requires WellFormed(rs, size) && (HasHeader(rs) ==> ZeroHeader(file, size))
      modifies this
      ensures rs != [] ==> |rs[0].page| == size
      ensures file == Committed(old(file), rs, size) && log == None
      ensures AllInCommit(tr, old(file), rs, size, old(history), history)
    {
      ghost var start, was := file, history;
      SetLog(Some([]));
      var data := CreateWalData(tr, rs, size);
      SetLog(Some(data[..]));
      ghost var began := history;
      LogReplays(tr, start, rs, size);
      hide WellFormed, HasHeader, ZeroHeader, Committed, AllInCommit, Staged, LogBytes, Replay, Complete, Count;
      CommitBegins(tr, start, rs, size, was);
      var applied := ApplyWalData(tr, data[..], true, size);
      CommitStages(tr, start, rs, size, was, began, history);
      CommitEnds(tr, start, rs, size, was, history);
      SetLog(Some([]));
      SetLog(None);
    }

    /** Applies the log a crash left behind, if it passes the check, and removes
        it in any case. */
    method ApplyWal(tr: Transform)
      requires log.Some? ==> |log.value| <= TWO32 - 64
      requires log.Some? && Passes(tr, log.value) ==> Complete(file, log.value, Count(log.value), HEADER_SIZE)
      modifies this
      ensures file == Recovered(tr, old(Snapshot(file, log))) && log == None
      ensures old(log).None? || !SoundLog(tr, old(log).value) ==> file == old(file)
    {
      if log == None {
        return;
      }
      hide Passes, SoundLog, Complete, Replay, Staged;
      var data := log.value;
      PassesIsSound(tr, data);
      assert Passes(tr, data) ==> |data| >= 32 by {
        PassingLength(tr, data);
      }
      var applied := ApplyWalData(tr, data, false, HEADER_SIZE);
      SetLog(None);
    }

    /** Opening a database whose commit was cut off anywhere finds its old bytes
        or its new ones. */
    method RecoverCommit(tr: Transform, ghost was: File, ghost rs: seq<Record>, ghost size: nat)
      requires WellFormed(rs, size) && (HasHeader(rs) ==> ZeroHeader(was, size)) && Recoverable(rs, size)
      requires NoPrefixCollides(tr, rs) && |LogBytes(tr, rs)| <= TWO32 - 64
      requires InCommit(tr, was, rs, size, Snapshot(file, log))
      modifies this
      ensures rs != [] ==> |rs[0].page| == size
      ensures SameBytes(file, was) || SameBytes(file, Committed(was, rs, size))
      ensures log == None
    {
      AllOrNothing(tr, was, rs, size, Snapshot(file, log));
      NoPrefixIsTaken(tr, rs, size);
      PassingLogs(tr, was, rs, size, Snapshot(file, log));
      hide *;
      ApplyWal(tr);
    }
  }

  /** Identifier and digest of a log found on disk, hashed in one go. */
  method Check(tr: Transform, data: seq<byte>, size: nat) returns (passes: bool)
    requires |data| <= TWO32 - 64 && size == HEADER_SIZE
    ensures passes == Passes(tr, data)
    ensures passes <==> |data| >= 236 && data[..8] == LOG_IDENTIFIER && data[8..28] == Digest(tr, data[32..])
  {
    PassesIsSound(tr, data);
    if |data| < 36 + size {
      return false;
    }
    if Sub(data, 0, 8) != LOG_IDENTIFIER {
      return false;
    }
    var sha := new Context(tr);
    hide Digest, Sub;
    sha.Update(Sub(data, 32, |data| - 32));
    assert [] + Sub(data, 32, |data| - 32) == Sub(data, 32, |data| - 32);
    var digest := sha.Final();
    return Sub(data, 8, 20) == digest;
  }

  /** All that was noted since `was` are stages of a replay. */
  ghost predicate Staged(was: seq<Snapshot>, now: seq<Snapshot>, file: File, data: seq<byte>, n: nat, size: nat,
                         log: Option<seq<byte>>) {
    && was <= now
    && forall k :: |was| <= k < |now| ==>
      exists i: nat :: i <= n && now[k] == Snapshot(Replay(file, data, i, size).file, log)
  }

  lemma NothingStaged(was: seq<Snapshot>, file: File, data: seq<byte>, n: nat, size: nat, log: Option<seq<byte>>)
    ensures Staged(was, was, file, data, n, size, log)
    ensures Replay(file, data, 0, size) == State(file, 0, 32, size, false)
  {}

  lemma StagedMore(was: seq<Snapshot>, now: seq<Snapshot>, file: File, data: seq<byte>, n: nat, size: nat,
                   log: Option<seq<byte>>, i: nat)
    requires Staged(was, now, file, data, n, size, log) && i <= n
    ensures Staged(was, now + [Snapshot(Replay(file, data, i, size).file, log)], file, data, n, size, log)
  {
    var later := now + [Snapshot(Replay(file, data, i, size).file, log)];
    forall k | |was| <= k < |later|
      ensures exists i: nat :: i <= n && later[k] == Snapshot(Replay(file, data, i, size).file, log)
    {
      if k < |now| {
        assert later[k] == now[k];
      }
    }
  }

  /** The next step of a replay, and what it writes. */
  lemma NextStep(file: File, data: seq<byte>, i: nat, n: nat, size: nat)
    requires Complete(file, data, n, size) && i < n && !Replay(file, data, i, size).stopped
    ensures var st := Replay(file, data, i, size);
      && InBounds(st, data) && Replay(file, data, i + 1, size) == Step(st, data)
      && st.position + 4 + st.size <= |data|
      && Step(st, data).file
           == WriteAt(st.file, Seek(FromBigEndian(Sub(data, st.position, 4)), st.size, st.cursor),
                      Sub(data, st.position + 4, st.size))
  {}

  lemma PassingLength(tr: Transform, log: seq<byte>)
    ensures Passes(tr, log) ==> |log| >= 32
  {}

  /** All that was noted since `was` lies within the commit. */
  ghost predicate AllInCommit(tr: Transform, file: File, rs: seq<Record>, size: nat, was: seq<Snapshot>,
                              now: seq<Snapshot>)
    requires WellFormed(rs, size)
  {
    was <= now && forall k :: |was| <= k < |now| ==> InCommit(tr, file, rs, size, now[k])
  }

  /** The program's own log replays from the real page size to the new pages. */
  lemma LogReplays(tr: Transform, file: File, rs: seq<Record>, size: nat)
    requires WellFormed(rs, size)
    ensures rs != [] ==> |rs[0].page| == size
    ensures var log := LogBytes(tr, rs);
      |log| >= 32 && Count(log) == |rs| && Complete(file, log, |rs|, size)
      && Replay(file, log, |rs|, size).file == Committed(file, rs, size)
  {
    LogParts(tr, rs);
    LogComplete(tr, rs, size, file, size);
    ReplayPuts(tr, rs, size, file, size, |rs|);
    assert rs[..|rs|] == rs;
  }

  lemma CommitBegins(tr: Transform, file: File, rs: seq<Record>, size: nat, was: seq<Snapshot>)
    requires WellFormed(rs, size)
    ensures AllInCommit(tr, file, rs, size, was,
                        was + [Snapshot(file, Some([]))] + [Snapshot(file, Some(LogBytes(tr, rs)))])
  {
    hide LogBytes, IsHeader, HasHeader, Torn, Put;
    assert [] <= LogBytes(tr, rs) && LogBytes(tr, rs) <= LogBytes(tr, rs);
  }

  lemma CommitStages(tr: Transform, file: File, rs: seq<Record>, size: nat,
                     was: seq<Snapshot>, began: seq<Snapshot>, now: seq<Snapshot>)
    requires WellFormed(rs, size) && (HasHeader(rs) ==> ZeroHeader(file, size))
    requires AllInCommit(tr, file, rs, size, was, began)
    requires Staged(began, now, file, LogBytes(tr, rs), |rs|, size, Some(LogBytes(tr, rs)))
    ensures AllInCommit(tr, file, rs, size, was, now)
  {
    hide InCommit, WellFormed, LogBytes, HasHeader, ZeroHeader, Replay;
    forall k | |was| <= k < |now| ensures InCommit(tr, file, rs, size, now[k]) {
      if k < |began| {
        assert now[k] == began[k];
      } else {
        var i: nat :| i <= |rs|
          && now[k] == Snapshot(Replay(file, LogBytes(tr, rs), i, size).file, Some(LogBytes(tr, rs)));
        StageInCommit(tr, file, rs, size, i);
      }
    }
  }

  lemma StageInCommit(tr: Transform, file: File, rs: seq<Record>, size: nat, i: nat)
    requires WellFormed(rs, size) && (HasHeader(rs) ==> ZeroHeader(file, size)) && i <= |rs|
    ensures InCommit(tr, file, rs, size, Snapshot(Replay(file, LogBytes(tr, rs), i, size).file, Some(LogBytes(tr, rs))))
  {
    hide LogBytes, Torn, IsHeader, Replay, Put;
    ReplayPuts(tr, rs, size, file, size, i);
    CommitTorn(file, rs, size, i);
  }

  lemma CommitEnds(tr: Transform, file: File, rs: seq<Record>, size: nat, was: seq<Snapshot>, now: seq<Snapshot>)
    requires WellFormed(rs, size) && AllInCommit(tr, file, rs, size, was, now)
    ensures rs != [] ==> |rs[0].page| == size
    ensures AllInCommit(tr, file, rs, size, was,
                        now + [Snapshot(Committed(file, rs, size), Some([]))]
                          + [Snapshot(Committed(file, rs, size), None)])
  {
    hide LogBytes, IsHeader, HasHeader, Torn, Put;
  }

  /** A log found within a commit that passes the check is the complete one. */
  lemma PassingLogs(tr: Transform, file: File, rs: seq<Record>, size: nat, d: Snapshot)
    requires WellFormed(rs, size) && Recoverable(rs, size)
    requires NoPrefixPasses(tr, LogBytes(tr, rs)) && InCommit(tr, file, rs, size, d)
    ensures d.log.Some? ==> |d.log.value| <= |LogBytes(tr, rs)|
    ensures d.log.Some? && Passes(tr, d.log.value) ==>
      |d.log.value| >= 32 && Complete(d.file, d.log.value, Count(d.log.value), HEADER_SIZE)
  {
    hide IsHeader, LogBytes, Torn, Complete, Passes, Count;
    var log := LogBytes(tr, rs);
    LogCount(tr, rs);
    PassingLength(tr, []);
    if rs == [] {
      EmptyCommit(tr, file, d.file, size);
      assert [] <= log;
      return;
    }
    LogComplete(tr, rs, size, d.file, HEADER_SIZE);
    if d.log.Some? && Passes(tr, d.log.value) {
      assert d.log.value <= log by {
        assert [] <= log;
      }
      NotProper(d.log.value, log);
    }
  }

  lemma NotProper(l: seq<byte>, log: seq<byte>)
    requires l <= log && !(l < log)
    ensures l == log
  {
    assert |l| < |log| ==> l < log;
  }

  lemma LogCount(tr: Transform, rs: seq<Record>)
    requires |rs| < TWO31
    ensures |LogBytes(tr, rs)| >= 32 && Count(LogBytes(tr, rs)) == |rs|
  {
    LogParts(tr, rs);
  }
}
