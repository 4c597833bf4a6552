// The pager: reads and writes of a transaction over a store of pages, the chain
// of free pages threaded through them, commit and discard.
module Pager {
  import opened PageCache
  import opened Wrappers

  /** `free` are the free pages in the order they will be handed out: each holds
      the number of the next, the last one the number of pages. */
  ghost predicate FreeChain<V>(v: Store<V>, free: seq<nat>, next: nat, count: nat) {
    && count >= 1 && next == (if free == [] then count else free[0])
    && (forall i, j :: 0 <= i < j < |free| ==> free[i] != free[j])
    && forall i :: 0 <= i < |free| ==> LinkAt(v, free, i, count)
  }

  ghost predicate LinkAt<V>(v: Store<V>, free: seq<nat>, i: nat, count: nat)
    requires i < |free|
  {
    && 1 <= free[i] < count && free[i] in v
    && v[free[i]] == Long(if i + 1 < |free| then free[i + 1] else count)
  }

  /** All other pages but the header. */
  ghost function LivePages(free: seq<nat>, count: nat): set<nat> {
    set p | 1 <= p < count && p !in free
  }

  /** The caches are sorted and have no page in common; what was only read is
      what the store says; the header is the page without an object. */
  ghost predicate Caches<V>(store: Store<V>, cached: seq<Entry<V>>, dirty: seq<Entry<V>>) {
    && Sorted(cached) && Sorted(dirty)
    && (forall p :: p in AsMap(cached) ==> p !in AsMap(dirty))
    && (forall p :: p in AsMap(cached) && p != 0 ==> p in store && AsMap(cached)[p] == Whole(store[p]))
    && (forall p :: p in AsMap(dirty) ==> (AsMap(dirty)[p] == Fields <==> p == 0))
  }

  /** `w` is `v` with page `p` holding `page`, the header page aside. */
  ghost predicate Overwritten<V>(v: Store<V>, w: Store<V>, p: nat, page: Page<V>) {
    && p in w && w[p] == page
    && forall q :: q != 0 && q != p ==> (q in w <==> q in v) && (q in v && q in w ==> w[q] == v[q])
  }

  /** The two say the same, the header page aside. */
  ghost predicate SamePages<V>(v: Store<V>, w: Store<V>) {
    forall q :: q != 0 ==> (q in w <==> q in v) && (q in v && q in w ==> w[q] == v[q])
  }

  // ---- The chain

  lemma ChainPopped<V>(v: Store<V>, free: seq<nat>, next: nat, count: nat)
    requires FreeChain(v, free, next, count) && free != []
    ensures next in v && v[next].Long? && next != count
    ensures FreeChain(v, free[1..], v[next].next, count)
    ensures LivePages(free[1..], count) == LivePages(free, count) + {next}
    ensures next !in LivePages(free, count)
  {
    assert LinkAt(v, free, 0, count);
    forall i | 0 <= i < |free[1..]| ensures LinkAt(v, free[1..], i, count) {
      assert LinkAt(v, free, i + 1, count);
    }
    assert free == [next] + free[1..];
  }

  lemma ChainEmpty<V>(v: Store<V>, free: seq<nat>, next: nat, count: nat)
    requires FreeChain(v, free, next, count)
    ensures next == count <==> free == []
    ensures free == [] ==> FreeChain(v, [], count + 1, count + 1)
    ensures free == [] ==> LivePages([], count + 1) == LivePages([], count) + {count}
  {
    if free != [] {
      assert LinkAt(v, free, 0, count);
    }
  }

  lemma ChainPushed<V>(v: Store<V>, w: Store<V>, free: seq<nat>, next: nat, count: nat, p: nat)
    requires FreeChain(v, free, next, count) && p in LivePages(free, count)
    requires Overwritten(v, w, p, Long(next))
    ensures FreeChain(w, [p] + free, p, count)
    ensures LivePages([p] + free, count) == LivePages(free, count) - {p}
  {
    forall i | 0 <= i < |[p] + free| ensures LinkAt(w, [p] + free, i, count) {
      if i > 0 {
        assert LinkAt(v, free, i - 1, count);
      }
    }
  }

  /** The pages 1 to `count` - 1. */
  ghost function Below(count: nat): (r: set<nat>)
    ensures forall p :: p in r <==> 1 <= p < count
    ensures |r| == if count == 0 then 0 else count - 1
  {
    if count <= 1 then {} else Below(count - 1) + {count - 1}
  }

  ghost function Members(s: seq<nat>): set<nat> {
    set p | p in s
  }

  /** Every page below the count is either live or on the chain, and the chain
      visits no page twice: its length and the number of live pages add up. */
  lemma PagesSplit<V>(v: Store<V>, free: seq<nat>, next: nat, count: nat)
    requires FreeChain(v, free, next, count)
    ensures Members(free) !! LivePages(free, count)
    ensures Members(free) + LivePages(free, count) == Below(count)
    ensures |free| + |LivePages(free, count)| == count - 1
  {
    forall p | p in free ensures 1 <= p < count {
      var i :| 0 <= i < |free| && free[i] == p;
      assert LinkAt(v, free, i, count);
    }
    DistinctSize(free);
    assert Members(free) + LivePages(free, count) == Below(count);
  }

  lemma {:induction false} DistinctSize(s: seq<nat>)
    requires forall i, j :: 0 <= i < j < |s| ==> s[i] != s[j]
    ensures |Members(s)| == |s|
    decreases |s|
  {
    if s != [] {
      DistinctSize(s[1..]);
      assert Members(s) == Members(s[1..]) + {s[0]} && s[0] !in s[1..];
    }
  }

  // ---- Caches

  lemma ReadCached<V>(store: Store<V>, cached: seq<Entry<V>>, dirty: seq<Entry<V>>, h: Header, pos: nat, p: nat)
    requires Caches(store, cached, dirty) && p != 0 && p in store && p !in AsMap(dirty)
    requires IsPlace(cached, p, false, pos)
    ensures Caches(store, Put(cached, pos, Entry(p, Whole(store[p]))), dirty)
  {
    PutInMap(cached, pos, Entry(p, Whole(store[p])));
  }

  class Pager<V> {
    var store: Store<V>
    var readPages: seq<Entry<V>>
    var writePages: seq<Entry<V>>
    var nextEmpty: nat
    var numberOfPages: nat
    var databases: seq<nat>
    var initialNextEmpty: nat
    var initialNumberOfPages: nat
    var initialDatabases: seq<nat>
    ghost var free: seq<nat>
    ghost var initialFree: seq<nat>

    ghost predicate Valid()
      reads this
    {
      && Caches(store, readPages, writePages)
      && FreeChain(Pages(), free, nextEmpty, numberOfPages)
      && FreeChain(store, initialFree, initialNextEmpty, initialNumberOfPages)
    }

    function HeaderNow(): Header
      reads this
    {
      Header(nextEmpty, numberOfPages, databases)
    }

    /** The pages as this transaction sees them. */
    ghost function Pages(): Store<V>
      reads this
    {
      View(store, writePages, HeaderNow())
    }

    ghost function Live(): set<nat>
      reads this
    {
      LivePages(free, numberOfPages)
    }

    constructor (dbs: seq<nat>)
      ensures Valid() && Live() == {} && Pages() == store == map[] && initialFree == [] && initialNumberOfPages == 1
      ensures HeaderNow() == Header(1, 1, dbs)
    {
      store, readPages, writePages := map[], [], [];
      nextEmpty, numberOfPages, databases := 1, 1, dbs;
      initialNextEmpty, initialNumberOfPages, initialDatabases := 1, 1, dbs;
      free, initialFree := [], [];
    }

    /** Reads a page: what was last written in the transaction, or else what
        the store holds. */
    method Read(page: nat, cache: bool) returns (r: Option<Page<V>>)
      requires Valid() && page != 0
      modifies `readPages
      ensures Valid() && Pages() == old(Pages())
      ensures r == if page in Pages() then Some(Pages()[page]) else None
      ensures if cache then r.Some? ==> page in AsMap(readPages) || page in AsMap(writePages)
              else readPages == old(readPages)
    {
      var found, pos := SearchCache(writePages, page);
      PlaceInMap(writePages, page, found, pos);
      if found {
        return Some(writePages[pos].obj.page);
      }
      found, pos := SearchCache(readPages, page);
      PlaceInMap(readPages, page, found, pos);
      if found {
        return Some(readPages[pos].obj.page);
      }
      if page !in store {
        return None;
      }
      if cache {
        ReadCached(store, readPages, writePages, HeaderNow(), pos, page);
        PutInMap(readPages, pos, Entry(page, Whole(store[page])));
        readPages := Put(readPages, pos, Entry(page, Whole(store[page])));
      }
      return Some(store[page]);
    }

    /** Takes the first free page, or a new one at the end. */
    method AllocPageNumber() returns (page: nat)
      requires Valid()
      modifies `readPages, `nextEmpty, `numberOfPages, `free
      ensures Valid() && SamePages(old(Pages()), Pages())
      ensures page == old(nextEmpty) && page != 0 && page !in old(Live()) && Live() == old(Live()) + {page}
    {
      hide AsMap, FreeChain, View;
      page := nextEmpty;
      ghost var v := Pages();
      ChainEmpty(Pages(), free, nextEmpty, numberOfPages);
      if page == numberOfPages {
        nextEmpty := nextEmpty + 1;
        numberOfPages := numberOfPages + 1;
      } else {
        ChainPopped(Pages(), free, nextEmpty, numberOfPages);
        var next := Read(nextEmpty, true);
        nextEmpty := next.value.next;
        free := free[1..];
      }
      HeaderOnly(store, writePages, old(HeaderNow()), HeaderNow());
      ChainSame(v, Pages(), free, nextEmpty, numberOfPages);
    }

    /** Puts an object into the write cache, and out of the read cache. */
    method CacheWrite(page: nat, obj: Object<V>)
      requires Caches(store, readPages, writePages) && (obj == Fields <==> page == 0)
      modifies `readPages, `writePages
      ensures Caches(store, readPages, writePages)
      ensures AsMap(writePages) == old(AsMap(writePages))[page := obj]
    {
      var found, pos := SearchCache(writePages, page);
      PlaceInMap(writePages, page, found, pos);
      var e := Entry(page, obj);
      ghost var was, cached := AsMap(writePages), readPages;
      if found {
        ReplaceInMap(writePages, pos, e);
        writePages := writePages[pos := e];
        CachesAfter(store, cached, readPages, was, writePages, e);
        return;
      }
      PutInMap(writePages, pos, e);
      writePages := Put(writePages, pos, e);
      found, pos := SearchCache(readPages, page);
      PlaceInMap(readPages, page, found, pos);
      if found {
        DropInMap(readPages, pos);
        readPages := Drop(readPages, pos);
      }
      CachesAfter(store, cached, readPages, was, writePages, e);
    }

    /** Writes a live page, or the first free one, which that allocates. */
    method Write(page: nat, obj: Page<V>)
      requires Valid() && (page == nextEmpty || page in Live())
      modifies `readPages, `writePages, `nextEmpty, `numberOfPages, `free
      ensures Valid() && Overwritten(old(Pages()), Pages(), page, obj)
      ensures Live() == old(Live()) + {page}
      ensures page == old(nextEmpty) ==> 0 in Pages() && Pages()[0] == HeaderPage(HeaderNow())
      ensures page == old(nextEmpty) || 0 in old(AsMap(writePages)) ==> 0 in AsMap(writePages)
    {
      hide AsMap, FreeChain, View, Caches;
      ghost var v := Pages();
      if page == nextEmpty {
        var p := AllocPageNumber();
        ghost var w, dirty := Pages(), writePages;
        CacheWrite(0, Fields);
        ViewAfter(store, dirty, writePages, HeaderNow(), 0, Fields);
        ChainSame(w, Pages(), free, nextEmpty, numberOfPages);
      }
      ghost var u, dirty := Pages(), writePages;
      CacheWrite(page, Whole(obj));
      ViewAfter(store, dirty, writePages, HeaderNow(), page, Whole(obj));
      ChainWritten(u, Pages(), free, nextEmpty, numberOfPages, page, obj);
    }

    /** Writes the header, which says where the databases are. */
    method WriteHeader(dbs: seq<nat>)
      requires Valid()
      modifies `readPages, `writePages, `databases
      ensures Valid() && SamePages(old(Pages()), Pages()) && databases == dbs
      ensures 0 in Pages() && Pages()[0] == HeaderPage(HeaderNow()) && 0 in AsMap(writePages)
    {
      hide AsMap, FreeChain, View, Caches;
      ghost var v, dirty, h := Pages(), writePages, HeaderNow();
      CacheWrite(0, Fields);
      ViewAfter(store, dirty, writePages, h, 0, Fields);
      ghost var w := Pages();
      databases := dbs;
      HeaderDirty(store, readPages, writePages, h, HeaderNow());
      ChainSame(v, Pages(), free, nextEmpty, numberOfPages);
    }

    /** Frees a live page: it becomes the first free one. */
    method Delete(page: nat)
      requires Valid() && page in Live()
      modifies `readPages, `writePages, `nextEmpty, `free
      ensures Valid() && Overwritten(old(Pages()), Pages(), page, Long(old(nextEmpty)))
      ensures Live() == old(Live()) - {page} && nextEmpty == page
      ensures 0 in AsMap(writePages) <==> 0 in old(AsMap(writePages))
    {
      hide AsMap, FreeChain, View;
      ghost var v, dirty := Pages(), writePages;
      CacheWrite(page, Whole(Long(nextEmpty)));
      ViewAfter(store, dirty, writePages, HeaderNow(), page, Whole(Long(nextEmpty)));
      ghost var w := Pages();
      ChainPushed(v, w, free, nextEmpty, numberOfPages, page);
      nextEmpty := page;
      free := [page] + free;
      HeaderOnly(store, writePages, old(HeaderNow()), HeaderNow());
      ChainSame(w, Pages(), free, nextEmpty, numberOfPages);
    }

    /** Writes all dirty pages to the store, in order. */
    method WriteBack()
      modifies `store
      ensures store == View(old(store), writePages, HeaderNow())
    {
      hide View, AsMap;
      ghost var was := store;
      ViewNone(store, HeaderNow());
      assert writePages[..0] == [];
      for i := 0 to |writePages|
        invariant store == View(was, writePages[..i], HeaderNow())
      {
        ViewMore(was, writePages, HeaderNow(), i);
        var e := writePages[i];
        store := store[e.number := Stored(e.obj, HeaderNow())];
      }
      assert writePages[..|writePages|] == writePages;
    }

    /** Writes the transaction to the store and makes its fields the committed
        ones. */
    method Commit()
      requires Valid()
      modifies this
      ensures Valid() && store == old(Pages()) && Pages() == store
      ensures readPages == writePages == [] && HeaderNow() == old(HeaderNow()) && Live() == old(Live())
      ensures Header(initialNextEmpty, initialNumberOfPages, initialDatabases) == HeaderNow() && initialFree == free
    {
      hide FreeChain, Caches, View;
      WriteBack();
      initialNextEmpty, initialNumberOfPages, initialDatabases := nextEmpty, numberOfPages, databases;
      initialFree := free;
      Discard();
    }

    /** Drops both caches and returns to the committed fields. */
    method Discard()
      requires FreeChain(store, initialFree, initialNextEmpty, initialNumberOfPages)
      modifies `readPages, `writePages, `nextEmpty, `numberOfPages, `databases, `free
      ensures Valid() && Pages() == store && readPages == writePages == [] && free == initialFree
      ensures HeaderNow() == Header(initialNextEmpty, initialNumberOfPages, initialDatabases)
    {
      hide AsMap, FreeChain, View;
      ViewNone(store, Header(initialNextEmpty, initialNumberOfPages, initialDatabases));
      NoCaches(store);
      readPages, writePages := [], [];
      nextEmpty, numberOfPages, databases := initialNextEmpty, initialNumberOfPages, initialDatabases;
      free := initialFree;
    }
  }

  lemma NoCaches<V>(store: Store<V>)
    ensures Caches(store, [], [])
  {}

  lemma ViewNone<V>(store: Store<V>, h: Header)
    ensures View(store, [], h) == store
  {}

  lemma ViewMore<V>(store: Store<V>, dirty: seq<Entry<V>>, h: Header, i: nat)
    requires i < |dirty|
    ensures View(store, dirty[..i + 1], h) == View(store, dirty[..i], h)[dirty[i].number := Stored(dirty[i].obj, h)]
  {
    assert dirty[..i + 1][..i] == dirty[..i];
  }

  /** The fields matter to the header page only. */
  lemma HeaderOnly<V>(store: Store<V>, dirty: seq<Entry<V>>, h: Header, g: Header)
    requires forall p :: p in AsMap(dirty) ==> (AsMap(dirty)[p] == Fields <==> p == 0)
    ensures SamePages(View(store, dirty, h), View(store, dirty, g))
  {}

  /** A dirty header is written from the fields as they are. */
  lemma HeaderDirty<V>(store: Store<V>, cached: seq<Entry<V>>, dirty: seq<Entry<V>>, h: Header, g: Header)
    requires Caches(store, cached, dirty) && 0 in AsMap(dirty)
    ensures SamePages(View(store, dirty, h), View(store, dirty, g))
    ensures 0 in View(store, dirty, g) && View(store, dirty, g)[0] == HeaderPage(g)
  {
    hide Sorted, AsMap;
  }

  lemma ChainSame<V>(v: Store<V>, w: Store<V>, free: seq<nat>, next: nat, count: nat)
    requires FreeChain(v, free, next, count) && SamePages(v, w)
    ensures FreeChain(w, free, next, count)
  {
    forall i | 0 <= i < |free| ensures LinkAt(w, free, i, count) {
      assert LinkAt(v, free, i, count);
    }
  }

  lemma CachesAfter<V>(store: Store<V>, cached: seq<Entry<V>>, now: seq<Entry<V>>, dirty: map<nat, Object<V>>,
                       writes: seq<Entry<V>>, e: Entry<V>)
    requires Sorted(now) && Sorted(writes) && (e.obj == Fields <==> e.number == 0)
    requires AsMap(writes) == dirty[e.number := e.obj]
    requires now == cached || AsMap(now) == AsMap(cached) - {e.number}
    requires e.number in dirty || e.number !in AsMap(now)
    requires forall p :: p in AsMap(cached) ==> p !in dirty
    requires forall p :: p in AsMap(cached) && p != 0 ==> p in store && AsMap(cached)[p] == Whole(store[p])
    requires forall p :: p in dirty ==> (dirty[p] == Fields <==> p == 0)
    ensures Caches(store, now, writes)
  {}

  lemma ViewAfter<V>(store: Store<V>, dirty: seq<Entry<V>>, writes: seq<Entry<V>>, h: Header, p: nat, obj: Object<V>)
    requires AsMap(writes) == AsMap(dirty)[p := obj]
    ensures Overwritten(View(store, dirty, h), View(store, writes, h), p, Stored(obj, h))
    ensures forall q :: q != p && q in View(store, dirty, h) ==>
      q in View(store, writes, h) && View(store, writes, h)[q] == View(store, dirty, h)[q]
  {}

  lemma ChainWritten<V>(v: Store<V>, w: Store<V>, free: seq<nat>, next: nat, count: nat, p: nat, page: Page<V>)
    requires FreeChain(v, free, next, count) && Overwritten(v, w, p, page) && p in LivePages(free, count)
    ensures FreeChain(w, free, next, count)
  {
    forall i | 0 <= i < |free| ensures LinkAt(w, free, i, count) {
      assert LinkAt(v, free, i, count);
    }
  }
}
