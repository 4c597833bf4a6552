// The pager on disk: the dirty pages of a transaction are the records of a log,
// so that a crash leaves the pages from before the transaction or those after it.
module PagerLog {
  import opened Bytes
  import opened PageCache
  import P = Pager
  import opened Sha1
  import opened Wal
  import opened WalCrash
  import L = WalFormat
  import opened Wrappers

  /** As many database numbers as a header of 200 bytes has room for. */
  const MAX_DATABASES := 44

  /** How pages become bytes: all of one size, header pages as they should be. */
  ghost predicate Serializes<V(!new)>(ser: Page<V> -> seq<byte>, size: nat) {
    && L.HEADER_SIZE <= size < L.TWO31
    && (forall page :: |ser(page)| == size)
    && forall h: Header :: |h.databases| <= MAX_DATABASES ==> L.IsHeader(ser(HeaderPage(h)), size)
  }

  /** Counts and page numbers fit in four bytes. */
  ghost predicate Small<V>(dirty: seq<Entry<V>>, h: Header) {
    && |dirty| < L.TWO31 && |h.databases| <= MAX_DATABASES
    && forall i :: 0 <= i < |dirty| ==> dirty[i].number < L.TWO31
  }

  function RecordOf<V>(ser: Page<V> -> seq<byte>, e: Entry<V>, h: Header): L.Record {
    L.Record(e.number, ser(Stored(e.obj, h)))
  }

  /** The dirty pages as records. */
  ghost function Records<V>(ser: Page<V> -> seq<byte>, dirty: seq<Entry<V>>, h: Header): (rs: seq<L.Record>)
    ensures |rs| == |dirty| && forall i :: 0 <= i < |dirty| ==> rs[i] == RecordOf(ser, dirty[i], h)
  {
    seq(|dirty|, i requires 0 <= i < |dirty| => RecordOf(ser, dirty[i], h))
  }

  /** What a file has where page `p` is. */
  ghost function PageAt(file: L.File, p: nat, size: nat): (bytes: seq<byte>)
    ensures |bytes| == size && forall j :: 0 <= j < size ==> bytes[j] == L.At(file, L.Offset(p, size) + j)
  {
    seq<byte>(size, j requires 0 <= j < size => L.At(file, L.Offset(p, size) + j))
  }

  /** The file has these pages. */
  ghost predicate OnDisk<V>(file: L.File, ser: Page<V> -> seq<byte>, size: nat, pages: Store<V>) {
    ZeroHeader(file, size) && forall p :: p in pages ==> PageAt(file, p, size) == ser(pages[p])
  }

  // ---- From dirty pages to records

  /** The dirty pages make a log that recovery can replay; it has the header
      exactly if the header is dirty. */
  lemma DirtyIsLog<V(!new)>(store: Store<V>, cached: seq<Entry<V>>, dirty: seq<Entry<V>>, h: Header,
                            ser: Page<V> -> seq<byte>, size: nat)
    requires P.Caches(store, cached, dirty) && Serializes(ser, size) && Small(dirty, h)
    ensures L.WellFormed(Records(ser, dirty, h), size)
    ensures L.HasHeader(Records(ser, dirty, h)) <==> 0 in AsMap(dirty)
  {
    hide AsMap, L.IsHeader;
    var rs := Records(ser, dirty, h);
    if dirty != [] {
      MapAt(dirty, 0);
    }
    if 0 in AsMap(dirty) {
      MapOnly(dirty, 0);
      var i :| 0 <= i < |dirty| && dirty[i].number == 0;
      assert dirty[0].number == 0;
    }
    assert forall i, j :: 0 <= i < j < |rs| ==> rs[i].number == dirty[i].number && rs[j].number == dirty[j].number;
  }

  lemma OtherPage(p: nat, q: nat, size: nat, i: nat)
    requires p != q && InPage(p, size, i)
    ensures !InPage(q, size, i)
  {
    hide L.Offset;
    PagesInOrder(p, q, size);
    PagesInOrder(q, p, size);
  }

  /** A dirty page is on disk after the commit. */
  lemma DirtyWritten<V(!new)>(file: L.File, dirty: seq<Entry<V>>, h: Header, ser: Page<V> -> seq<byte>, size: nat,
                              k: nat)
    requires L.WellFormed(Records(ser, dirty, h), size) && k < |dirty|
    ensures |Records(ser, dirty, h)[0].page| == size
    ensures PageAt(Committed(file, Records(ser, dirty, h), size), dirty[k].number, size) == ser(Stored(dirty[k].obj, h))
  {
    hide L.At, L.Offset, L.Put, L.IsHeader;
    var rs, p := Records(ser, dirty, h), dirty[k].number;
    FirstPage(rs, size, 0);
    assert rs[k] == RecordOf(ser, dirty[k], h) && |rs[k].page| == size;
    forall j | 0 <= j < size ensures PageAt(Committed(file, rs, size), p, size)[j] == rs[k].page[j] {
      assert InPage(p, size, L.Offset(p, size) + j);
      PutThere(file, rs, size, size, k, L.Offset(p, size) + j);
    }
  }

  /** Any other page is as it was. */
  lemma OthersKept(file: L.File, rs: seq<L.Record>, size: nat, p: nat)
    requires L.WellFormed(rs, size) && forall k :: 0 <= k < |rs| ==> rs[k].number != p
    ensures rs != [] ==> |rs[0].page| == size
    ensures PageAt(Committed(file, rs, size), p, size) == PageAt(file, p, size)
  {
    hide L.At, L.Offset, L.Put, L.IsHeader;
    FirstPage(rs, size, 0);
    forall j | 0 <= j < size ensures PageAt(Committed(file, rs, size), p, size)[j] == PageAt(file, p, size)[j] {
      var i := L.Offset(p, size) + j;
      assert InPage(p, size, i);
      forall k | 0 <= k < |rs| ensures !InPage(rs[k].number, size, i) {
        OtherPage(p, rs[k].number, size, i);
      }
      PutElsewhere(file, rs, size, size, i);
    }
  }

  lemma HeaderStays(file: L.File, rs: seq<L.Record>, size: nat)
    requires L.WellFormed(rs, size) && ZeroHeader(file, size)
    ensures rs != [] ==> |rs[0].page| == size
    ensures ZeroHeader(Committed(file, rs, size), size)
  {
    hide L.At, L.Put, L.IsHeader, ZeroHeader, InPage;
    FirstPage(rs, size, 0);
    if L.HasHeader(rs) {
      CommitTorn(file, rs, size, |rs|);
      assert rs[..|rs|] == rs;
    } else {
      ZeroElsewhere(file, rs, size);
    }
  }

  lemma ZeroElsewhere(file: L.File, rs: seq<L.Record>, size: nat)
    requires L.WellFormed(rs, size) && ZeroHeader(file, size) && !L.HasHeader(rs)
    ensures rs != [] ==> |rs[0].page| == size
    ensures ZeroHeader(Committed(file, rs, size), size)
  {
    hide L.At, L.Put, L.IsHeader;
    FirstPage(rs, size, 0);
    forall i: nat | L.HEADER_SIZE <= i < size ensures L.At(Committed(file, rs, size), i) == 0 {
      forall k | 0 <= k < |rs| ensures !InPage(rs[k].number, size, i) {
        assert k > 0 ==> rs[0].number < rs[k].number;
        OtherPage(0, rs[k].number, size, i);
      }
      PutElsewhere(file, rs, size, size, i);
    }
  }

  /** Committing the records of a transaction puts its view of the pages on
      disk. */
  lemma CommitOnDisk<V(!new)>(file: L.File, store: Store<V>, cached: seq<Entry<V>>, dirty: seq<Entry<V>>, h: Header,
                              ser: Page<V> -> seq<byte>, size: nat)
    requires P.Caches(store, cached, dirty) && Serializes(ser, size) && Small(dirty, h)
    requires OnDisk(file, ser, size, store)
    ensures L.WellFormed(Records(ser, dirty, h), size)
    ensures OnDisk(Committed(file, Records(ser, dirty, h), size), ser, size, View(store, dirty, h))
  {
    hide L.At, L.Put, L.IsHeader, L.WellFormed, AsMap, P.Caches, ZeroHeader, Serializes, Sorted;
    var rs, v := Records(ser, dirty, h), View(store, dirty, h);
    DirtyIsLog(store, cached, dirty, h, ser, size);
    FirstPage(rs, size, 0);
    HeaderStays(file, rs, size);
    DirtyIsSorted(store, cached, dirty);
    forall p | p in v ensures PageAt(Committed(file, rs, size), p, size) == ser(v[p]) {
      if p in AsMap(dirty) {
        MapOnly(dirty, p);
        var k :| 0 <= k < |dirty| && dirty[k].number == p && dirty[k].obj == AsMap(dirty)[p];
        DirtyWritten(file, dirty, h, ser, size, k);
      } else {
        forall k | 0 <= k < |rs| ensures rs[k].number != p {
          MapAt(dirty, k);
        }
        OthersKept(file, rs, size, p);
      }
    }
  }

  lemma DirtyIsSorted<V>(store: Store<V>, cached: seq<Entry<V>>, dirty: seq<Entry<V>>)
    requires P.Caches(store, cached, dirty)
    ensures Sorted(dirty)
  {}

  lemma SameOnDisk<V>(a: L.File, b: L.File, ser: Page<V> -> seq<byte>, size: nat, pages: Store<V>)
    requires SameBytes(a, b) && OnDisk(b, ser, size, pages)
    ensures OnDisk(a, ser, size, pages)
  {
    hide L.At, L.Offset;
    forall p | p in pages ensures PageAt(a, p, size) == ser(pages[p]) {
      assert PageAt(a, p, size) == PageAt(b, p, size);
    }
  }

  // ---- A crash

  /** Recovery finds the pages from before the transaction or those after it. */
  ghost predicate OldOrNew<V>(tr: Transform, d: Snapshot, ser: Page<V> -> seq<byte>, size: nat, was: Store<V>,
                              now: Store<V>) {
    OnDisk(Recovered(tr, d), ser, size, was) || OnDisk(Recovered(tr, d), ser, size, now)
  }

  /** A transaction that wrote the header, as `Pager.Write` does for the first free
      page, is all or nothing for the pages of the database. */
  lemma CrashOldOrNew<V(!new)>(tr: Transform, file: L.File, d: Snapshot, store: Store<V>, cached: seq<Entry<V>>,
                               dirty: seq<Entry<V>>, h: Header, ser: Page<V> -> seq<byte>, size: nat)
    requires P.Caches(store, cached, dirty) && Serializes(ser, size) && Small(dirty, h)
    requires dirty == [] || 0 in AsMap(dirty) || size == L.HEADER_SIZE
    requires OnDisk(file, ser, size, store)
    requires L.WellFormed(Records(ser, dirty, h), size)
    requires NoPrefixCollides(tr, Records(ser, dirty, h))
    requires InCommit(tr, file, Records(ser, dirty, h), size, d)
    ensures OldOrNew(tr, d, ser, size, store, View(store, dirty, h))
  {
    hide Recovered, InCommit, NoPrefixCollides, L.WellFormed, P.Caches, SameBytes, Committed, AsMap, L.LogBytes, View,
         Small;
    var rs := Records(ser, dirty, h);
    DirtyIsLog(store, cached, dirty, h, ser, size);
    AllOrNothing(tr, file, rs, size, d);
    CommitOnDisk(file, store, cached, dirty, h, ser, size);
    FirstPage(rs, size, 0);
    if SameBytes(Recovered(tr, d), file) {
      SameOnDisk(Recovered(tr, d), file, ser, size, store);
    } else {
      SameOnDisk(Recovered(tr, d), Committed(file, rs, size), ser, size, View(store, dirty, h));
    }
  }

  /** Every snapshot noted since `was` is recovered to the old pages or the new
      ones. */
  ghost predicate AllOldOrNew<V>(tr: Transform, was: seq<Snapshot>, now: seq<Snapshot>, ser: Page<V> -> seq<byte>,
                                 size: nat, before: Store<V>, after: Store<V>) {
    was <= now && forall k :: |was| <= k < |now| ==> OldOrNew(tr, now[k], ser, size, before, after)
  }

  lemma CrashesOldOrNew<V(!new)>(tr: Transform, file: L.File, was: seq<Snapshot>, now: seq<Snapshot>, store: Store<V>,
                                 cached: seq<Entry<V>>, dirty: seq<Entry<V>>, h: Header,
                                 ser: Page<V> -> seq<byte>, size: nat)
    requires P.Caches(store, cached, dirty) && Serializes(ser, size) && Small(dirty, h)
    requires dirty == [] || 0 in AsMap(dirty) || size == L.HEADER_SIZE
    requires OnDisk(file, ser, size, store)
    requires L.WellFormed(Records(ser, dirty, h), size)
    requires NoPrefixCollides(tr, Records(ser, dirty, h))
    requires AllInCommit(tr, file, Records(ser, dirty, h), size, was, now)
    ensures AllOldOrNew(tr, was, now, ser, size, store, View(store, dirty, h))
  {
    hide InCommit, NoPrefixCollides, L.WellFormed, P.Caches, AsMap, L.LogBytes, View, Small, OldOrNew, OnDisk,
         Serializes;
    forall k | |was| <= k < |now| ensures OldOrNew(tr, now[k], ser, size, store, View(store, dirty, h)) {
      CrashOldOrNew(tr, file, now[k], store, cached, dirty, h, ser, size);
    }
  }

  /** The records of all dirty pages, serialised one by one. */
  method Serialize<V>(ser: Page<V> -> seq<byte>, dirty: seq<Entry<V>>, h: Header) returns (rs: seq<L.Record>)
    ensures rs == Records(ser, dirty, h)
  {
    rs := [];
    for i := 0 to |dirty|
      invariant |rs| == i && forall j :: 0 <= j < i ==> rs[j] == RecordOf(ser, dirty[j], h)
    {
      rs := rs + [RecordOf(ser, dirty[i], h)];
    }
  }

  /** Commits a transaction through the log to a file. */
  method CommitToDisk<V(!new)>(pager: P.Pager<V>, disk: Disk, tr: Transform, ser: Page<V> -> seq<byte>, size: nat)
    requires pager.Valid() && Serializes(ser, size) && Small(pager.writePages, pager.HeaderNow())
    requires OnDisk(disk.file, ser, size, pager.store)
    modifies pager, disk
    ensures pager.Valid() && pager.store == old(pager.Pages()) && pager.Live() == old(pager.Live())
    ensures pager.HeaderNow() == old(pager.HeaderNow()) && pager.readPages == pager.writePages == []
    ensures OnDisk(disk.file, ser, size, pager.store) && disk.log == None
    ensures (old(pager.writePages) == [] || 0 in old(AsMap(pager.writePages)) || size == L.HEADER_SIZE)
         && NoPrefixCollides(tr, Records(ser, old(pager.writePages), old(pager.HeaderNow())))
         ==> AllOldOrNew(tr, old(disk.history), disk.history, ser, size, old(pager.store), pager.store)
  {
    hide InCommit, NoPrefixCollides, L.WellFormed, P.Caches, AsMap, L.LogBytes, View, Small, AllOldOrNew, OnDisk,
         Serializes,
         P.FreeChain, AllInCommit, Committed, ZeroHeader;
    ghost var store, cached, dirty, h := pager.store, pager.readPages, pager.writePages, pager.HeaderNow();
    ghost var file, was := disk.file, disk.history;
    var rs := Serialize(ser, pager.writePages, pager.HeaderNow());
    DirtyIsLog(store, cached, dirty, h, ser, size);
    CommitOnDisk(file, store, cached, dirty, h, ser, size);
    assert ZeroHeader(file, size) by {
      HasZeroHeader(file, ser, size, store);
    }
    disk.WriteApplyWal(tr, rs, size);
    if (dirty == [] || 0 in AsMap(dirty) || size == L.HEADER_SIZE) && NoPrefixCollides(tr, rs) {
      CrashesOldOrNew(tr, file, was, disk.history, store, cached, dirty, h, ser, size);
    }
    pager.Commit();
  }

  lemma HasZeroHeader<V>(file: L.File, ser: Page<V> -> seq<byte>, size: nat, pages: Store<V>)
    requires OnDisk(file, ser, size, pages)
    ensures ZeroHeader(file, size)
  {}
}
