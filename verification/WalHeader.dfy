// Why the header has to be in the log. Recovery starts with the page size of a
// header and takes the real one from the first record; without it, it writes
// pieces of the log all over the file.
module WalHeader {
  import opened Bytes
  import opened Sha1
  import opened WalCrash
  import opened WalFormat
  import opened Wrappers

  ghost function Numbers(rs: seq<Record>): seq<nat> {
    seq(|rs|, i requires 0 <= i < |rs| => rs[i].number)
  }

  /** Recovery from a complete log yields the old bytes or the new ones. */
  ghost predicate Restores(tr: Transform, file: File, rs: seq<Record>, size: nat, t: File)
    requires WellFormed(rs, size)
  {
    var r := Recovered(tr, Snapshot(t, Some(LogBytes(tr, rs))));
    SameBytes(r, file) || SameBytes(r, Committed(file, rs, size))
  }

  /** That holds of all transactions that write these pages of the file, and of
      everything a crash can leave of them. */
  ghost predicate AlwaysRestores(tr: Transform, file: File, numbers: seq<nat>, size: nat) {
    forall rs: seq<Record>, t: File ::
      WellFormed(rs, size) && Numbers(rs) == numbers && Torn(file, t, rs, size) ==> Restores(tr, file, rs, size, t)
  }

  /** Pages a commit can be writing. */
  ghost predicate PageList(numbers: seq<nat>) {
    && |numbers| < TWO31 && (forall i :: 0 <= i < |numbers| ==> numbers[i] < TWO31)
    && forall i, j :: 0 <= i < j < |numbers| ==> numbers[i] < numbers[j]
  }

  /** Whatever the file holds, its commits of these pages survive a crash exactly
      if they write no page, or page 0, or if pages are as small as the header. */
  lemma ExactlyWithHeader(tr: Transform, file: File, numbers: seq<nat>, size: nat)
    requires PageList(numbers) && HEADER_SIZE <= size < TWO31
    ensures AlwaysRestores(tr, file, numbers, size) <==> numbers == [] || numbers[0] == 0 || size == HEADER_SIZE
  {
    hide WellFormed, Torn, Restores;
    if numbers == [] || numbers[0] == 0 || size == HEADER_SIZE {
      forall rs: seq<Record>, t: File | WellFormed(rs, size) && Numbers(rs) == numbers && Torn(file, t, rs, size)
        ensures Restores(tr, file, rs, size, t)
      {
        assert numbers != [] ==> rs[0].number == Numbers(rs)[0];
        WithHeader(tr, file, rs, size, t);
      }
    } else {
      var rs := WithoutHeader(tr, file, numbers, size);
      OwnTorn(file, rs, size);
    }
  }

  lemma WithHeader(tr: Transform, file: File, rs: seq<Record>, size: nat, t: File)
    requires WellFormed(rs, size) && Torn(file, t, rs, size) && Recoverable(rs, size)
    ensures Restores(tr, file, rs, size, t)
  {
    hide WellFormed, Torn, SameBytes, LogBytes, Recovered;
    if rs == [] {
      EmptyCommit(tr, file, t, size);
      NothingReplayed(tr, Snapshot(t, Some(LogBytes(tr, []))));
    } else {
      CompleteLog(tr, file, t, rs, size);
    }
  }

  // ---- Two transactions that change every byte of their pages

  /** A byte other than the one there was, and not zero. */
  ghost function Fresh(was: byte): (b: byte)
    ensures b != was && b != 0
  {
    if was == 1 then 2 else 1
  }

  /** And another one. */
  ghost function Fresher(was: byte): (b: byte)
    ensures b != was && b != 0 && b != Fresh(was)
  {
    if was == 3 then 2 else 3
  }

  ghost function FreshByte(file: File, p: nat, size: nat, j: nat, other: bool): (b: byte)
    ensures b != At(file, Offset(p, size) + j) && b != 0
  {
    var was := At(file, Offset(p, size) + j);
    if other then Fresher(was) else Fresh(was)
  }

  /** A page of fresh bytes, the other one at `odd`. */
  ghost function FreshPage(file: File, p: nat, size: nat, odd: int): (page: seq<byte>)
    ensures |page| == size
    ensures forall j :: 0 <= j < size ==> page[j] == FreshByte(file, p, size, j, j == odd)
  {
    seq<byte>(size, j requires 0 <= j < size => FreshByte(file, p, size, j, j == odd))
  }

  /** Fresh pages, of which page `k` has the other byte at `odd`. */
  ghost function Changes(file: File, numbers: seq<nat>, size: nat, k: int, odd: int): (rs: seq<Record>)
    ensures |rs| == |numbers|
    ensures forall i :: 0 <= i < |rs| ==>
      rs[i] == Record(numbers[i], FreshPage(file, numbers[i], size, if i == k then odd else -1))
  {
    seq(|numbers|, i requires 0 <= i < |numbers| =>
      Record(numbers[i], FreshPage(file, numbers[i], size, if i == k then odd else -1)))
  }

  /** The file, the pages and their size, of a transaction without the header. */
  ghost predicate Headless(numbers: seq<nat>, size: nat) {
    PageList(numbers) && HEADER_SIZE < size < TWO31 && numbers != [] && numbers[0] != 0
  }

  lemma ChangesWellFormed(file: File, numbers: seq<nat>, size: nat, k: int, odd: int)
    requires Headless(numbers, size)
    ensures var rs := Changes(file, numbers, size, k, odd);
      WellFormed(rs, size) && Numbers(rs) == numbers && !HasHeader(rs)
  {
    hide FreshPage;
  }

  // ---- What the replay makes of them

  /** Of any four bytes in a row, one is not zero. */
  ghost predicate Alive(s: seq<byte>) {
    forall j: nat :: j + 4 <= |s| ==> !FourZeros(s, j)
  }

  ghost predicate FourZeros(s: seq<byte>, j: nat)
    requires j + 4 <= |s|
  {
    s[j] == 0 && s[j + 1] == 0 && s[j + 2] == 0 && s[j + 3] == 0
  }

  ghost predicate NoZero(s: seq<byte>) {
    forall i :: 0 <= i < |s| ==> s[i] != 0
  }

  lemma ZeroNumber(s: seq<byte>)
    requires |s| == 4
    ensures FromBigEndian(s) == 0 <==> FourZeros(s, 0)
  {
    assert s[..3][..2] == s[..2] && s[..2][..1] == s[..1] && s[..1][..0] == [];
    assert FromBigEndian(s[..1]) == 0 <==> s[0] == 0;
    assert FromBigEndian(s[..2]) == 0 <==> s[0] == 0 && s[1] == 0;
    assert FromBigEndian(s[..3]) == 0 <==> s[0] == 0 && s[1] == 0 && s[2] == 0;
  }

  lemma AliveMore(s: seq<byte>, number: seq<byte>, page: seq<byte>)
    requires Alive(s) && (s != [] ==> s[|s| - 1] != 0) && |number| == 4 && !FourZeros(number, 0)
    requires page != [] && NoZero(page)
    ensures var t := s + (number + page); Alive(t) && t[|t| - 1] != 0
  {
    var t := s + (number + page);
    forall j: nat | j + 4 <= |t| ensures !FourZeros(t, j) {
      if j + 4 <= |s| {
        assert !FourZeros(s, j);
        assert t[j] == s[j] && t[j + 1] == s[j + 1] && t[j + 2] == s[j + 2] && t[j + 3] == s[j + 3];
      } else if j < |s| {
        assert t[|s| - 1] != 0;
      } else if j == |s| {
        assert t[j] == number[0] && t[j + 1] == number[1] && t[j + 2] == number[2] && t[j + 3] == number[3];
      } else {
        assert t[j + 3] == page[j + 3 - |s| - 4];
      }
    }
  }

  lemma {:induction false} BodyAlive(rs: seq<Record>)
    requires forall i :: 0 <= i < |rs| ==> 0 < rs[i].number < TWO31 && rs[i].page != [] && NoZero(rs[i].page)
    ensures var s := Body(rs); Alive(s) && (s != [] ==> s[|s| - 1] != 0)
    decreases |rs|
  {
    hide Body, Alive, FourZeros, NoZero, BigEndian, FromBigEndian;
    BodyNone();
    if rs == [] {
      NothingAlive();
    } else {
      var a, r := rs[..|rs| - 1], rs[|rs| - 1];
      assert rs == a + [r];
      BodyOneMore(a, r);
      BodyAlive(a);
      NumberRoundTrip(r.number);
      ZeroNumber(BigEndian(r.number, 4));
      AliveMore(Body(a), BigEndian(r.number, 4), r.page);
    }
  }

  lemma NothingAlive()
    ensures Alive([])
  {}

  /** The bytes in which two files differ. */
  ghost function Differences(a: File, b: File): (m: set<nat>)
    ensures forall i: nat :: i in m <==> At(a, i) != At(b, i)
  {
    set i: nat | i < |a| + |b| && At(a, i) != At(b, i)
  }

  ghost function Range(at: nat, n: nat): (r: set<nat>)
    ensures |r| == n && forall i :: i in r <==> at <= i < at + n
  {
    if n == 0 then {} else Range(at, n - 1) + {at + n - 1}
  }

  lemma {:induction false} SubsetSize(a: set<nat>, b: set<nat>)
    requires a <= b
    ensures |a| <= |b|
    decreases |a|
  {
    if a != {} {
      var x :| x in a;
      SubsetSize(a - {x}, b - {x});
    }
  }

  lemma WriteDiffers(file: File, t: File, at: nat, bytes: seq<byte>)
    ensures |Differences(file, WriteAt(t, at, bytes))| <= |Differences(file, t)| + |bytes|
  {
    hide At, WriteAt;
    SubsetSize(Differences(file, WriteAt(t, at, bytes)), Differences(file, t) + Range(at, |bytes|));
  }

  lemma NoDifferences(file: File)
    ensures Differences(file, file) == {}
  {}

  /** Where a replay that takes pages for headers is in the log. */
  ghost function Position(n: nat): nat {
    32 + (HEADER_SIZE + 4) * n
  }

  /** A log that is alive and has room for `n` headers. */
  ghost predicate AliveLog(log: seq<byte>, n: nat) {
    Position(n) <= |log| && Alive(log[32..])
  }

  /** A step takes four bytes for a number, which is not zero, and 200 for a page. */
  lemma HeadlessStep(st: State, log: seq<byte>, n: nat)
    requires AliveLog(log, n + 1) && !st.stopped && st.size == HEADER_SIZE && st.position == Position(n)
    ensures InBounds(st, log)
    ensures var at := Seek(FromBigEndian(Sub(log, Position(n), 4)), HEADER_SIZE, st.cursor);
      Next(st, log) == State(WriteAt(st.file, at, Sub(log, Position(n) + 4, HEADER_SIZE)), at + HEADER_SIZE,
                             Position(n + 1), HEADER_SIZE, false)
  {
    hide WriteAt, Seek, FromBigEndian;
    ZeroNumber(Sub(log, Position(n), 4));
    assert !FourZeros(log[32..], Position(n) - 32);
  }

  /** After `n` steps at most 200 bytes for each differ. */
  lemma {:induction false} HeadlessReplay(file: File, log: seq<byte>, n: nat)
    requires AliveLog(log, n)
    ensures var st := Replay(file, log, n, HEADER_SIZE);
      && !st.stopped && st.size == HEADER_SIZE && st.position == Position(n)
      && |Differences(file, st.file)| <= HEADER_SIZE * n
    decreases n
  {
    hide Next, Alive, Differences, FromBigEndian, Sub, WriteAt, Seek;
    if n == 0 {
      NoDifferences(file);
    } else {
      HeadlessReplay(file, log, n - 1);
      var st := Replay(file, log, n - 1, HEADER_SIZE);
      HeadlessStep(st, log, n - 1);
      WriteDiffers(file, st.file, Seek(FromBigEndian(Sub(log, Position(n - 1), 4)), HEADER_SIZE, st.cursor),
                   Sub(log, Position(n - 1) + 4, HEADER_SIZE));
    }
  }

  /** The two logs say the same from byte 32 up to byte `q`. */
  ghost predicate SameUpTo(a: seq<byte>, b: seq<byte>, q: nat) {
    |a| == |b| && q <= |a| && forall i :: 32 <= i < q ==> a[i] == b[i]
  }

  ghost predicate FirstDiffer(a: seq<byte>, b: seq<byte>, q: nat) {
    SameUpTo(a, b, q) && q < |a| && a[q] != b[q]
  }

  lemma SameSub(a: seq<byte>, b: seq<byte>, q: nat, at: nat, n: nat)
    requires SameUpTo(a, b, q) && 32 <= at && at + n <= q
    ensures Sub(a, at, n) == Sub(b, at, n)
  {}

  lemma {:induction false} SameReplay(file: File, a: seq<byte>, b: seq<byte>, q: nat, n: nat)
    requires AliveLog(a, n) && AliveLog(b, n) && SameUpTo(a, b, q) && Position(n) <= q
    ensures Replay(file, a, n, HEADER_SIZE) == Replay(file, b, n, HEADER_SIZE)
    decreases n
  {
    hide Next, Alive, FromBigEndian, Sub, WriteAt, Seek, SameUpTo, Differences;
    if n > 0 {
      SameReplay(file, a, b, q, n - 1);
      HeadlessReplay(file, a, n - 1);
      HeadlessReplay(file, b, n - 1);
      HeadlessStep(Replay(file, a, n - 1, HEADER_SIZE), a, n - 1);
      HeadlessStep(Replay(file, b, n - 1, HEADER_SIZE), b, n - 1);
      SameSub(a, b, q, Position(n - 1), 4);
      SameSub(a, b, q, Position(n - 1) + 4, HEADER_SIZE);
    }
  }

  /** Two logs that first differ in the last page a replay writes leave different
      files. */
  lemma ReplaysDiffer(file: File, a: seq<byte>, b: seq<byte>, q: nat, n: nat)
    requires AliveLog(a, n + 1) && AliveLog(b, n + 1) && FirstDiffer(a, b, q)
    requires Position(n) + 4 <= q < Position(n + 1)
    ensures !SameBytes(Replay(file, a, n + 1, HEADER_SIZE).file, Replay(file, b, n + 1, HEADER_SIZE).file)
  {
    hide Next, Alive, FromBigEndian, WriteAt, Seek, Differences, At;
    SameReplay(file, a, b, q, n);
    HeadlessReplay(file, a, n);
    var st := Replay(file, a, n, HEADER_SIZE);
    HeadlessStep(st, a, n);
    HeadlessStep(st, b, n);
    SameSub(a, b, q, Position(n), 4);
    var at := Seek(FromBigEndian(Sub(a, Position(n), 4)), HEADER_SIZE, st.cursor);
    var x, y := Sub(a, Position(n) + 4, HEADER_SIZE), Sub(b, Position(n) + 4, HEADER_SIZE);
    var j := q - Position(n) - 4;
    assert x[j] == a[q] && y[j] == b[q];
    assert At(WriteAt(st.file, at, x), at + j) == x[j] && At(WriteAt(st.file, at, y), at + j) == y[j];
  }

  // ---- What the commit would have left

  /** The bytes of all pages of the transaction. */
  ghost function Covered(numbers: seq<nat>, size: nat): set<nat> {
    if numbers == [] then {}
    else Covered(numbers[..|numbers| - 1], size) + Range(Offset(numbers[|numbers| - 1], size), size)
  }

  lemma FewerPages(numbers: seq<nat>)
    requires PageList(numbers) && |numbers| > 1
    ensures var n := |numbers| - 1;
      PageList(numbers[..n]) && numbers[..n][n - 1] == numbers[n - 1] < numbers[n]
  {}

  lemma {:induction false} CoveredBelow(numbers: seq<nat>, size: nat)
    requires PageList(numbers) && numbers != []
    ensures forall i :: i in Covered(numbers, size) ==> i < Offset(numbers[|numbers| - 1], size) + size
    decreases |numbers|
  {
    hide Offset, PageList;
    if |numbers| > 1 {
      var n := |numbers| - 1;
      FewerPages(numbers);
      CoveredBelow(numbers[..n], size);
      PagesInOrder(numbers[n - 1], numbers[n], size);
    }
  }

  lemma {:induction false} CoveredSize(numbers: seq<nat>, size: nat)
    requires PageList(numbers)
    ensures |Covered(numbers, size)| == |numbers| * size
    decreases |numbers|
  {
    hide Offset, PageList;
    var n := |numbers| - 1;
    if n == 0 {
      assert Covered(numbers, size) == Range(Offset(numbers[0], size), size);
    } else if n > 0 {
      FewerPages(numbers);
      CoveredSize(numbers[..n], size);
      CoveredBelow(numbers[..n], size);
      PagesInOrder(numbers[n - 1], numbers[n], size);
      Apart(Covered(numbers[..n], size), Range(Offset(numbers[n], size), size));
      Times(n, size);
    }
  }

  lemma Apart(a: set<nat>, b: set<nat>)
    requires a !! b
    ensures |a + b| == |a| + |b|
  {}

  lemma Times(n: nat, size: nat)
    ensures n * size + size == (n + 1) * size
  {}

  lemma {:induction false} CoveredIn(numbers: seq<nat>, size: nat, i: nat)
    requires i in Covered(numbers, size)
    ensures exists k :: 0 <= k < |numbers| && InPage(numbers[k], size, i)
    decreases |numbers|
  {
    hide Offset;
    var n := |numbers| - 1;
    if i in Covered(numbers[..n], size) {
      CoveredIn(numbers[..n], size, i);
      var k :| 0 <= k < n && InPage(numbers[..n][k], size, i);
      assert InPage(numbers[k], size, i);
    } else {
      assert InPage(numbers[n], size, i);
    }
  }

  /** All of them are changed by the commit. */
  lemma CommitDiffers(file: File, numbers: seq<nat>, size: nat, k: int, odd: int)
    requires Headless(numbers, size)
    ensures WellFormed(Changes(file, numbers, size, k, odd), size)
    ensures Covered(numbers, size) <= Differences(file, Committed(file, Changes(file, numbers, size, k, odd), size))
  {
    hide WellFormed, Put, Offset, At, Covered, Headless, FreshByte;
    ChangesWellFormed(file, numbers, size, k, odd);
    var rs := Changes(file, numbers, size, k, odd);
    FirstPage(rs, size, 0);
    forall i | i in Covered(numbers, size) ensures i in Differences(file, Put(file, rs, size, size)) {
      CoveredIn(numbers, size, i);
      var m :| 0 <= m < |numbers| && InPage(numbers[m], size, i);
      PutThere(file, rs, size, size, m, i);
      var p, j := numbers[m], i - Offset(numbers[m], size);
      assert rs[m].page[j] == FreshByte(file, p, size, j, j == if m == k then odd else -1);
    }
  }

  lemma TooFew(n: nat, size: nat)
    requires n > 0 && size > HEADER_SIZE
    ensures HEADER_SIZE * n < n * size
  {
    assert n * size == HEADER_SIZE * n + n * (size - HEADER_SIZE);
    assert n * (size - HEADER_SIZE) >= 1;
  }

  lemma SameDifferences(file: File, a: File, b: File)
    requires SameBytes(a, b)
    ensures Differences(file, a) == Differences(file, b)
  {
    hide At;
  }

  // ---- The logs of the two transactions

  /** Where byte `j` of page `k` is in the log. */
  ghost function PlaceOf(size: nat, k: nat, j: nat): nat {
    32 + k * (size + 4) + 4 + j
  }

  /** A page byte among the first five the last step writes. */
  lemma LastPlace(n: nat, size: nat) returns (k: nat, j: nat)
    requires n > 0 && size > HEADER_SIZE
    ensures k < n && j < size && Position(n - 1) + 4 <= PlaceOf(size, k, j) < Position(n)
  {
    var x, p := (HEADER_SIZE + 4) * (n - 1) + 4, size + 4;
    k := x / p;
    var r := x % p;
    assert x == k * p + r;
    j := if r >= 4 then r - 4 else r;
    Beyond(n, size, k, x);
  }

  lemma Beyond(n: nat, size: nat, k: nat, x: nat)
    requires n > 0 && size > HEADER_SIZE && x == (HEADER_SIZE + 4) * (n - 1) + 4 && k * (size + 4) <= x
    ensures k < n
  {
    Multiples(n, k, size + 4);
    TooFew(n, size);
    assert n * (size + 4) == n * size + 4 * n;
  }

  lemma Multiples(n: nat, k: nat, p: nat)
    ensures n <= k ==> n * p <= k * p
  {
    if n <= k {
      assert k * p == n * p + (k - n) * p;
      assert (k - n) * p >= 0;
    }
  }

  /** The log of the changes: alive, long enough, with the records in place. */
  ghost predicate LogOf(log: seq<byte>, rs: seq<Record>, size: nat) {
    && |log| == 32 + |rs| * (size + 4) && AliveLog(log, |rs|)
    && |rs| < TWO31 && FromBigEndian(Sub(log, 28, 4)) == |rs|
    && log[32..] == Body(rs)
  }

  lemma LogOfChanges(tr: Transform, file: File, numbers: seq<nat>, size: nat, k: int, odd: int)
    requires Headless(numbers, size)
    ensures var rs := Changes(file, numbers, size, k, odd);
      LogOf(LogBytes(tr, rs), rs, size) && Passes(tr, LogBytes(tr, rs))
  {
    hide LogBytes, Body, Alive, FromBigEndian, Digest, BigEndian, WellFormed, FreshByte, HasHeader, Passes, Sub;
    var rs := Changes(file, numbers, size, k, odd);
    ChangesWellFormed(file, numbers, size, k, odd);
    LogPasses(tr, rs, size);
    LogParts(tr, rs);
    BodyLength(rs, size);
    forall i | 0 <= i < |rs| ensures 0 < rs[i].number < TWO31 && rs[i].page != [] && NoZero(rs[i].page) {
      assert i > 0 ==> numbers[0] < numbers[i];
    }
    BodyAlive(rs);
    TooFew(|rs|, size);
    LogTail(LogBytes(tr, rs), Body(rs));
  }

  lemma LogTail(log: seq<byte>, body: seq<byte>)
    requires |log| == 32 + |body| && Sub(log, 32, |body|) == body
    ensures log[32..] == body
  {}

  /** The log says `s` from byte 32 up to byte `q`, and there `b`. */
  ghost predicate SaysUpTo(log: seq<byte>, q: nat, s: seq<byte>, b: byte) {
    32 <= q < |log| && log[32..q] == s && log[q] == b
  }

  /** A log up to a byte of a page, and that byte. */
  lemma LogSplit(log: seq<byte>, rs: seq<Record>, size: nat, k: nat, j: nat)
    requires LogOf(log, rs, size) && k < |rs| && j < size
    requires forall i :: 0 <= i < |rs| ==> |rs[i].page| == size
    ensures SaysUpTo(log, PlaceOf(size, k, j), Body(rs[..k]) + (BigEndian(rs[k].number, 4) + rs[k].page[..j]),
                     rs[k].page[j])
  {
    hide Body, BigEndian, AliveLog, FromBigEndian, Sub;
    RecordInBody(rs, k);
    BodyLength(rs[..k], size);
    CutRecord(log, Body(rs[..k]), BigEndian(rs[k].number, 4), rs[k].page, Body(rs[k + 1..]), j);
  }

  lemma CutRecord(log: seq<byte>, a: seq<byte>, b: seq<byte>, c: seq<byte>, d: seq<byte>, j: nat)
    requires |log| >= 32 && log[32..] == a + (b + c) + d && j < |c|
    ensures SaysUpTo(log, 32 + |a| + |b| + j, a + (b + c[..j]), c[j])
  {
    var q, s := 32 + |a| + |b| + j, log[32..];
    assert log[q] == s[q - 32];
    assert log[32..q] == s[..q - 32];
  }

  lemma SaidAlike(a: seq<byte>, b: seq<byte>, q: nat, s: seq<byte>, x: byte, y: byte)
    requires SaysUpTo(a, q, s, x) && SaysUpTo(b, q, s, y) && |a| == |b| && x != y
    ensures FirstDiffer(a, b, q)
  {
    forall i | 32 <= i < q ensures a[i] == b[i] {
      assert a[i] == a[32..q][i - 32] && b[i] == b[32..q][i - 32];
    }
  }

  /** The logs of the two transactions differ first in the byte chosen. */
  lemma LogsDiffer(a: seq<byte>, b: seq<byte>, file: File, numbers: seq<nat>, size: nat, k: nat, odd: nat)
    requires Headless(numbers, size) && k < |numbers| && odd < size
    requires LogOf(a, Changes(file, numbers, size, -1, -1), size)
    requires LogOf(b, Changes(file, numbers, size, k, odd), size)
    ensures FirstDiffer(a, b, PlaceOf(size, k, odd))
  {
    hide LogOf, Body, BigEndian, At, Offset, Headless, PlaceOf, SaysUpTo, FirstDiffer;
    var q, rs, ss := PlaceOf(size, k, odd), Changes(file, numbers, size, -1, -1), Changes(file, numbers, size, k, odd);
    LogSplit(a, rs, size, k, odd);
    LogSplit(b, ss, size, k, odd);
    assert rs[..k] == ss[..k];
    assert rs[k].page[..odd] == ss[k].page[..odd];
    LogLength(a, rs, size);
    LogLength(b, ss, size);
    var s := Body(rs[..k]) + (BigEndian(rs[k].number, 4) + rs[k].page[..odd]);
    SaidAlike(a, b, q, s, rs[k].page[odd], ss[k].page[odd]);
  }

  lemma LogLength(log: seq<byte>, rs: seq<Record>, size: nat)
    requires LogOf(log, rs, size)
    ensures |log| == 32 + |rs| * (size + 4)
  {}

  // ---- A transaction that is lost

  /** Recovery does not complete the changes. */
  lemma NotNew(tr: Transform, file: File, numbers: seq<nat>, size: nat, k: int, odd: int)
    requires Headless(numbers, size)
    ensures WellFormed(Changes(file, numbers, size, k, odd), size)
    ensures var rs := Changes(file, numbers, size, k, odd);
      !SameBytes(Replay(file, LogBytes(tr, rs), |rs|, HEADER_SIZE).file, Committed(file, rs, size))
  {
    hide WellFormed, LogBytes, Passes, Replay, Differences, Covered, Put, Body, Digest, FreshPage, SameBytes;
    var rs := Changes(file, numbers, size, k, odd);
    LogOfChanges(tr, file, numbers, size, k, odd);
    HeadlessReplay(file, LogBytes(tr, rs), |rs|);
    CommitDiffers(file, numbers, size, k, odd);
    CoveredSize(numbers, size);
    TooFew(|numbers|, size);
    var r := Replay(file, LogBytes(tr, rs), |rs|, HEADER_SIZE).file;
    if SameBytes(r, Committed(file, rs, size)) {
      SameDifferences(file, r, Committed(file, rs, size));
      SubsetSize(Covered(numbers, size), Differences(file, r));
    }
  }

  lemma BothSame(file: File, a: File, b: File)
    requires SameBytes(a, file) && SameBytes(b, file)
    ensures SameBytes(a, b)
  {}

  lemma RecoveredByReplay(tr: Transform, file: File, rs: seq<Record>, size: nat)
    requires LogOf(LogBytes(tr, rs), rs, size) && Passes(tr, LogBytes(tr, rs))
    ensures Recovered(tr, Snapshot(file, Some(LogBytes(tr, rs))))
         == Replay(file, LogBytes(tr, rs), |rs|, HEADER_SIZE).file
  {
    hide LogBytes, Passes, Replay;
  }

  /** On every file and any of its pages but the header there is a transaction of
      which recovery leaves neither the old bytes nor the new ones: of two that
      differ in one byte, recovery cannot undo both, and completes neither. */
  lemma WithoutHeader(tr: Transform, file: File, numbers: seq<nat>, size: nat) returns (rs: seq<Record>)
    requires PageList(numbers) && HEADER_SIZE < size < TWO31 && numbers != [] && numbers[0] != 0
    ensures WellFormed(rs, size) && Numbers(rs) == numbers && !HasHeader(rs)
    ensures Passes(tr, LogBytes(tr, rs)) && !Restores(tr, file, rs, size, file)
  {
    hide WellFormed, LogBytes, Passes, Replay, SameBytes, Committed, HasHeader, LogOf, PageList, Recovered, PlaceOf;
    var n := |numbers|;
    var k, odd := LastPlace(n, size);
    rs := Changes(file, numbers, size, -1, -1);
    var ss := Changes(file, numbers, size, k, odd);
    var a, b := LogBytes(tr, rs), LogBytes(tr, ss);
    ChangesWellFormed(file, numbers, size, -1, -1);
    ChangesWellFormed(file, numbers, size, k, odd);
    LogOfChanges(tr, file, numbers, size, -1, -1);
    LogOfChanges(tr, file, numbers, size, k, odd);
    LogsDiffer(a, b, file, numbers, size, k, odd);
    LogAlive(a, rs, size);
    LogAlive(b, ss, size);
    ReplaysDiffer(file, a, b, PlaceOf(size, k, odd), n - 1);
    NotNew(tr, file, numbers, size, -1, -1);
    NotNew(tr, file, numbers, size, k, odd);
    RecoveredByReplay(tr, file, rs, size);
    RecoveredByReplay(tr, file, ss, size);
    var r := Replay(file, a, n, HEADER_SIZE).file;
    if SameBytes(r, file) {
      var s := Replay(file, b, n, HEADER_SIZE).file;
      if SameBytes(s, file) {
        BothSame(file, r, s);
        assert false;
      }
      rs := ss;
    }
  }

  lemma LogAlive(log: seq<byte>, rs: seq<Record>, size: nat)
    requires LogOf(log, rs, size)
    ensures AliveLog(log, |rs|)
  {}
}
