// The two page caches of a transaction: arrays sorted by page number, searched
// by halving, standing for maps.
module PageCache {
  datatype Header = Header(nextEmpty: nat, numberOfPages: nat, databases: seq<nat>)

  /** What a page of the file says. A free page holds the number of the next. */
  datatype Page<V> = HeaderPage(header: Header) | Long(next: nat) | Data(value: V)

  /** A cached object. The header page is not one: it is written from the fields
      of the database, as they are when it is written. */
  datatype Object<V> = Fields | Whole(page: Page<V>)

  datatype Entry<V> = Entry(number: nat, obj: Object<V>)

  type Store<V> = map<nat, Page<V>>

  function Stored<V>(obj: Object<V>, h: Header): Page<V> {
    match obj
    case Fields => HeaderPage(h)
    case Whole(page) => page
  }

  ghost predicate Sorted<V>(es: seq<Entry<V>>) {
    forall i, j :: 0 <= i < j < |es| ==> es[i].number < es[j].number
  }

  /** The map a cache stands for. */
  ghost function AsMap<V>(es: seq<Entry<V>>): map<nat, Object<V>> {
    if es == [] then map[] else AsMap(es[..|es| - 1])[es[|es| - 1].number := es[|es| - 1].obj]
  }

  /** The pages as a reader of the transaction sees them. */
  ghost function View<V>(store: Store<V>, writes: seq<Entry<V>>, h: Header): Store<V> {
    store + map p | p in AsMap(writes) :: Stored(AsMap(writes)[p], h)
  }

  lemma {:induction false} MapAt<V>(es: seq<Entry<V>>, i: nat)
    requires Sorted(es) && i < |es|
    ensures es[i].number in AsMap(es) && AsMap(es)[es[i].number] == es[i].obj
    decreases |es|
  {
    if i < |es| - 1 {
      MapAt(es[..|es| - 1], i);
    }
  }

  lemma {:induction false} MapOnly<V>(es: seq<Entry<V>>, p: nat)
    requires p in AsMap(es)
    ensures exists i :: 0 <= i < |es| && es[i].number == p && es[i].obj == AsMap(es)[p]
    decreases |es|
  {
    var n := |es| - 1;
    if p == es[n].number {
      assert es[n].number == p;
    } else {
      MapOnly(es[..n], p);
      var i :| 0 <= i < n && es[..n][i].number == p && es[..n][i].obj == AsMap(es[..n])[p];
      assert es[i].number == p;
    }
  }

  /** `pos` is where a page number is, or belongs. */
  ghost predicate IsPlace<V>(es: seq<Entry<V>>, number: nat, found: bool, pos: nat) {
    if found then
      pos < |es| && es[pos].number == number
    else
      && pos <= |es|
      && (forall i :: 0 <= i < pos ==> es[i].number < number)
      && (forall i :: pos <= i < |es| ==> es[i].number > number)
  }

  lemma PlaceInMap<V>(es: seq<Entry<V>>, number: nat, found: bool, pos: nat)
    requires Sorted(es) && IsPlace(es, number, found, pos)
    ensures found <==> number in AsMap(es)
    ensures found ==> AsMap(es)[number] == es[pos].obj
  {
    if found {
      MapAt(es, pos);
    } else if number in AsMap(es) {
      MapOnly(es, number);
      assert false;
    }
  }

  function Put<V>(es: seq<Entry<V>>, pos: nat, e: Entry<V>): seq<Entry<V>>
    requires pos <= |es|
  {
    es[..pos] + [e] + es[pos..]
  }

  function Drop<V>(es: seq<Entry<V>>, pos: nat): seq<Entry<V>>
    requires pos < |es|
  {
    es[..pos] + es[pos + 1..]
  }

  /** The entries of a cache and the bindings of a map are the same. */
  ghost predicate Spells<V>(es: seq<Entry<V>>, m: map<nat, Object<V>>) {
    && (forall i :: 0 <= i < |es| ==> es[i].number in m && m[es[i].number] == es[i].obj)
    && (forall p :: p in m ==> HasNumber(es, p))
  }

  ghost predicate HasNumber<V>(es: seq<Entry<V>>, p: nat) {
    exists i :: 0 <= i < |es| && es[i].number == p
  }

  lemma MapSpells<V>(es: seq<Entry<V>>)
    requires Sorted(es)
    ensures Spells(es, AsMap(es))
  {
    hide Sorted, AsMap;
    forall i | 0 <= i < |es| ensures es[i].number in AsMap(es) && AsMap(es)[es[i].number] == es[i].obj {
      MapAt(es, i);
    }
    forall p | p in AsMap(es) ensures HasNumber(es, p) {
      MapOnly(es, p);
    }
  }

  lemma SpelledMap<V>(es: seq<Entry<V>>, m: map<nat, Object<V>>)
    requires Sorted(es) && Spells(es, m)
    ensures AsMap(es) == m
  {
    hide Sorted, AsMap;
    forall p | p in AsMap(es) ensures p in m && m[p] == AsMap(es)[p] {
      MapOnly(es, p);
    }
    forall p | p in m ensures p in AsMap(es) {
      var i :| 0 <= i < |es| && es[i].number == p;
      MapAt(es, i);
    }
  }

  lemma PutSorted<V>(es: seq<Entry<V>>, pos: nat, e: Entry<V>)
    requires Sorted(es) && IsPlace(es, e.number, false, pos)
    ensures Sorted(Put(es, pos, e)) && !HasNumber(es, e.number)
  {}

  lemma PutHas<V>(es: seq<Entry<V>>, pos: nat, e: Entry<V>, p: nat)
    requires pos <= |es| && (p == e.number || HasNumber(es, p))
    ensures HasNumber(Put(es, pos, e), p)
  {
    var t := Put(es, pos, e);
    if p == e.number {
      assert t[pos] == e;
    } else {
      var i :| 0 <= i < |es| && es[i].number == p;
      assert t[if i < pos then i else i + 1] == es[i];
    }
  }

  lemma PutInMap<V>(es: seq<Entry<V>>, pos: nat, e: Entry<V>)
    requires Sorted(es) && IsPlace(es, e.number, false, pos)
    ensures Sorted(Put(es, pos, e)) && AsMap(Put(es, pos, e)) == AsMap(es)[e.number := e.obj]
  {
    hide Sorted, AsMap, HasNumber;
    var t, m := Put(es, pos, e), AsMap(es)[e.number := e.obj];
    MapSpells(es);
    PutSorted(es, pos, e);
    forall p | p in m ensures HasNumber(t, p) {
      PutHas(es, pos, e, p);
    }
    forall i | 0 <= i < |t| ensures t[i].number in m && m[t[i].number] == t[i].obj {
      if i != pos {
        var k := if i < pos then i else i - 1;
        NumberAt(es, k);
        assert t[i] == es[k];
      }
    }
    SpelledMap(t, m);
  }

  lemma NumberAt<V>(es: seq<Entry<V>>, i: nat)
    requires i < |es|
    ensures HasNumber(es, es[i].number)
  {}

  lemma ReplaceInMap<V>(es: seq<Entry<V>>, pos: nat, e: Entry<V>)
    requires Sorted(es) && pos < |es| && es[pos].number == e.number
    ensures Sorted(es[pos := e]) && AsMap(es[pos := e]) == AsMap(es)[e.number := e.obj]
  {
    hide AsMap;
    var t, m := es[pos := e], AsMap(es)[e.number := e.obj];
    MapSpells(es);
    forall p | p in m ensures HasNumber(t, p) {
      if p != e.number {
        var i :| 0 <= i < |es| && es[i].number == p;
        assert t[i].number == p;
      } else {
        assert t[pos].number == p;
      }
    }
    SpelledMap(t, m);
  }

  lemma DropSorted<V>(es: seq<Entry<V>>, pos: nat)
    requires Sorted(es) && pos < |es|
    ensures Sorted(Drop(es, pos)) && !HasNumber(Drop(es, pos), es[pos].number)
  {}

  lemma DropHas<V>(es: seq<Entry<V>>, pos: nat, p: nat)
    requires pos < |es| && p != es[pos].number && HasNumber(es, p)
    ensures HasNumber(Drop(es, pos), p)
  {
    var i :| 0 <= i < |es| && es[i].number == p;
    assert Drop(es, pos)[if i < pos then i else i - 1] == es[i];
  }

  lemma DropInMap<V>(es: seq<Entry<V>>, pos: nat)
    requires Sorted(es) && pos < |es|
    ensures Sorted(Drop(es, pos)) && AsMap(Drop(es, pos)) == AsMap(es) - {es[pos].number}
  {
    hide Sorted, AsMap, HasNumber;
    var t, m := Drop(es, pos), AsMap(es) - {es[pos].number};
    MapSpells(es);
    DropSorted(es, pos);
    forall p | p in m ensures HasNumber(t, p) {
      DropHas(es, pos, p);
    }
    forall i | 0 <= i < |t| ensures t[i].number in m && m[t[i].number] == t[i].obj {
      NumberAt(t, i);
      assert t[i] == es[if i < pos then i else i + 1];
    }
    SpelledMap(t, m);
  }

  /** Finds a page number, or the place it would be inserted at. */
  method SearchCache<V>(es: seq<Entry<V>>, number: nat) returns (found: bool, position: nat)
    requires Sorted(es)
    ensures IsPlace(es, number, found, position)
  {
    var min: int, max: int := 0, |es| - 1;
    if max < 0 {
      return false, 0;
    }
    var pos: nat := 0;
    while true
      invariant 0 <= min <= max < |es|
      invariant forall i :: 0 <= i < min ==> es[i].number < number
      invariant forall i :: max < i < |es| ==> es[i].number > number
      decreases max - min
    {
      pos := min + (max - min) / 2;
      if es[pos].number == number {
        return true, pos;
      } else if es[pos].number > number {
        max := pos - 1;
      } else {
        min := pos + 1;
      }
      if max < min {
        break;
      }
    }
    if es[pos].number > number && pos > 0 {
      pos := pos - 1;
    }
    if es[pos].number < number && pos < |es| {
      pos := pos + 1;
    }
    return false, pos;
  }
}
