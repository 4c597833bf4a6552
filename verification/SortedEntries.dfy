// Sorted association lists: the simple object a B-tree stands for, and the
// in-order weaving of subtrees with the entries that separate them.
module SortedEntries {

  datatype Entry<V> = Entry(key: int, value: V)

  ghost predicate Sorted<V>(s: seq<Entry<V>>) {
    forall i, j :: 0 <= i < j < |s| ==> s[i].key < s[j].key
  }

  ghost predicate Below<V>(s: seq<Entry<V>>, k: int) {
    forall i :: 0 <= i < |s| ==> s[i].key < k
  }

  ghost predicate Above<V>(s: seq<Entry<V>>, k: int) {
    forall i :: 0 <= i < |s| ==> k < s[i].key
  }

  ghost predicate HasKey<V>(s: seq<Entry<V>>, k: int) {
    exists i :: 0 <= i < |s| && s[i].key == k
  }

  /** The sorted list with `e` added. */
  ghost function Insert<V>(s: seq<Entry<V>>, e: Entry<V>): seq<Entry<V>> {
    if s == [] || e.key < s[0].key then [e] + s else [s[0]] + Insert(s[1..], e)
  }

  /** The list without the entry whose key is `k`. */
  ghost function Remove<V>(s: seq<Entry<V>>, k: int): seq<Entry<V>> {
    if s == [] then [] else if s[0].key == k then s[1..] else [s[0]] + Remove(s[1..], k)
  }

  /** The finite map a list of entries denotes; the first entry of a key wins. */
  ghost function AsMap<V>(s: seq<Entry<V>>): map<int, V> {
    if s == [] then map[] else AsMap(s[1..])[s[0].key := s[0].value]
  }

  lemma {:induction false} InsertBetween<V>(a: seq<Entry<V>>, m: seq<Entry<V>>, b: seq<Entry<V>>, e: Entry<V>)
    requires Below(a, e.key) && Above(b, e.key)
    ensures Insert(a + m + b, e) == a + Insert(m, e) + b
    decreases |a| + |m|
  {
    var s := a + m + b;
    if a != [] {
      InsertBetween(a[1..], m, b, e);
      assert s[0] == a[0] && s[1..] == a[1..] + m + b;
    } else if m != [] && e.key >= m[0].key {
      InsertBetween([], m[1..], b, e);
      assert s[0] == m[0] && s[1..] == [] + m[1..] + b;
    } else {
      assert s == m + b;
    }
  }

  lemma {:induction false} RemoveBetween<V>(a: seq<Entry<V>>, m: seq<Entry<V>>, b: seq<Entry<V>>, k: int)
    requires Below(a, k) && Above(b, k)
    ensures Remove(a + m + b, k) == a + Remove(m, k) + b
    decreases |a| + |m|
  {
    var s := a + m + b;
    if a != [] {
      RemoveBetween(a[1..], m, b, k);
      assert s[0] == a[0] && s[1..] == a[1..] + m + b;
    } else if m != [] {
      assert s[0] == m[0] && s[1..] == m[1..] + b;
      if m[0].key != k {
        RemoveBetween([], m[1..], b, k);
        assert s[1..] == [] + m[1..] + b;
      }
    } else {
      assert s == b;
      if b != [] {
        RemoveAbsent(b, k);
      }
    }
  }

  lemma HasKeyCons<V>(s: seq<Entry<V>>, k: int)
    requires s != []
    ensures HasKey(s, k) <==> s[0].key == k || HasKey(s[1..], k)
  {
    forall i | 0 <= i < |s[1..]| ensures s[1..][i] == s[i + 1] {}
    assert s[0].key == k ==> HasKey(s, k);
    if HasKey(s[1..], k) {
      var i :| 0 <= i < |s[1..]| && s[1..][i].key == k;
      assert s[i + 1].key == k;
    }
    if HasKey(s, k) {
      var i :| 0 <= i < |s| && s[i].key == k;
      assert i > 0 ==> s[1..][i - 1].key == k;
    }
  }

  lemma {:induction false} RemoveAbsent<V>(s: seq<Entry<V>>, k: int)
    requires !HasKey(s, k)
    ensures Remove(s, k) == s
  {
    if s != [] {
      HasKeyCons(s, k);
      RemoveAbsent(s[1..], k);
    }
  }

  lemma SortedCons<V>(x: Entry<V>, s: seq<Entry<V>>)
    ensures Sorted([x] + s) <==> Sorted(s) && Above(s, x.key)
  {
    var t := [x] + s;
    assert forall i :: 0 <= i < |s| ==> s[i] == t[i + 1];
    if Sorted(t) {
      forall i | 0 <= i < |s| ensures x.key < s[i].key {
        assert t[0].key < t[i + 1].key;
      }
    }
  }

  lemma AboveIsOverMembers<V>(s: seq<Entry<V>>, k: int)
    ensures Above(s, k) <==> forall x :: x in s ==> k < x.key
  {
    if forall x :: x in s ==> k < x.key {
      forall i | 0 <= i < |s| ensures k < s[i].key {
        assert s[i] in s;
      }
    }
  }

  lemma {:induction false} InsertMembers<V>(s: seq<Entry<V>>, e: Entry<V>)
    ensures forall x :: x in Insert(s, e) <==> x in s || x == e
    ensures |Insert(s, e)| == |s| + 1
  {
    if s != [] {
      InsertMembers(s[1..], e);
      assert forall x :: x in s <==> x == s[0] || x in s[1..];
    }
  }

  lemma {:induction false} InsertKeepsSorted<V>(s: seq<Entry<V>>, e: Entry<V>)
    requires Sorted(s) && !HasKey(s, e.key)
    ensures Sorted(Insert(s, e))
  {
    if s == [] || e.key < s[0].key {
      SortedCons(e, s);
    } else {
      var t := s[1..];
      HasKeyCons(s, e.key);
      InsertKeepsSorted(t, e);
      InsertMembers(t, e);
      assert s == [s[0]] + t;
      SortedCons(s[0], t);
      AboveIsOverMembers(t, s[0].key);
      AboveIsOverMembers(Insert(t, e), s[0].key);
      assert Above(Insert(t, e), s[0].key);
      SortedCons(s[0], Insert(t, e));
      assert Insert(s, e) == [s[0]] + Insert(t, e);
    }
  }

  /** Adding an absent key keeps the list sorted and adds exactly one binding. */
  lemma {:induction false} InsertIsMapUpdate<V>(s: seq<Entry<V>>, e: Entry<V>)
    requires Sorted(s) && !HasKey(s, e.key)
    ensures Sorted(Insert(s, e)) && |Insert(s, e)| == |s| + 1
    ensures AsMap(Insert(s, e)) == AsMap(s)[e.key := e.value]
  {
    InsertKeepsSorted(s, e);
    InsertMembers(s, e);
    if s == [] || e.key < s[0].key {
      assert ([e] + s)[1..] == s;
    } else {
      HasKeyCons(s, e.key);
      InsertIsMapUpdate(s[1..], e);
      assert ([s[0]] + Insert(s[1..], e))[1..] == Insert(s[1..], e);
    }
  }

  lemma {:induction false} RemoveMembers<V>(s: seq<Entry<V>>, k: int)
    ensures forall x :: x in Remove(s, k) ==> x in s
  {
    if s != [] && s[0].key != k {
      RemoveMembers(s[1..], k);
    }
  }

  lemma RemoveCons<V>(e: Entry<V>, t: seq<Entry<V>>, k: int)
    ensures Remove([e] + t, k) == if e.key == k then t else [e] + Remove(t, k)
    ensures AsMap([e] + t) == AsMap(t)[e.key := e.value]
  {
    assert ([e] + t)[1..] == t;
  }

  lemma {:induction false} RemoveKeepsSorted<V>(s: seq<Entry<V>>, k: int)
    requires Sorted(s)
    ensures Sorted(Remove(s, k)) && !HasKey(Remove(s, k), k)
    ensures |Remove(s, k)| == if HasKey(s, k) then |s| - 1 else |s|
  {
    hide AsMap, Sorted, Above;
    if s != [] {
      var e, t := s[0], s[1..];
      assert s == [e] + t;
      RemoveCons(e, t, k);
      SortedCons(e, t);
      HasKeyCons(s, k);
      if e.key == k {
        AboveHasNot(t, k);
      } else {
        RemoveKeepsSorted(t, k);
        RemoveMembers(t, k);
        AboveIsOverMembers(t, e.key);
        AboveIsOverMembers(Remove(t, k), e.key);
        SortedCons(e, Remove(t, k));
        HasKeyCons([e] + Remove(t, k), k);
      }
    }
  }

  lemma AboveHasNot<V>(s: seq<Entry<V>>, k: int)
    requires Above(s, k)
    ensures !HasKey(s, k)
  {}

  /** Removing a key keeps the list sorted and drops exactly its binding. */
  lemma {:induction false} RemoveIsMapRemoval<V>(s: seq<Entry<V>>, k: int)
    requires Sorted(s)
    ensures Sorted(Remove(s, k)) && !HasKey(Remove(s, k), k)
    ensures |Remove(s, k)| == if HasKey(s, k) then |s| - 1 else |s|
    ensures AsMap(Remove(s, k)) == AsMap(s) - {k}
  {
    hide HasKey, Sorted, Above;
    RemoveKeepsSorted(s, k);
    if s != [] {
      var e, t := s[0], s[1..];
      assert s == [e] + t;
      SortedCons(e, t);
      RemoveCons(e, t, k);
      RemoveCons(e, Remove(t, k), k);
      if e.key == k {
        AboveHasNot(t, k);
        KeysOfMap(t);
      } else {
        RemoveIsMapRemoval(t, k);
      }
    }
  }

  /** A key is bound in the map exactly when some entry carries it. */
  lemma {:induction false} KeysOfMap<V>(s: seq<Entry<V>>)
    ensures forall k :: k in AsMap(s) <==> HasKey(s, k)
  {
    if s != [] {
      KeysOfMap(s[1..]);
      forall k ensures k in AsMap(s) <==> HasKey(s, k) {
        HasKeyCons(s, k);
      }
    }
  }

  /** A run of insertions and removals as the list sees it: a key that is there
      is not inserted again, one that is not there is not removed. */
  datatype Change<V> = Put(entry: Entry<V>) | Drop(key: int)

  ghost function ListAfter<V>(changes: seq<Change<V>>): seq<Entry<V>> {
    if changes == [] then [] else Changed(ListAfter(changes[..|changes| - 1]), changes[|changes| - 1])
  }

  ghost function Changed<V>(s: seq<Entry<V>>, c: Change<V>): seq<Entry<V>> {
    match c
    case Put(e) => if HasKey(s, e.key) then s else Insert(s, e)
    case Drop(k) => Remove(s, k)
  }

  lemma OneMoreChange<V>(changes: seq<Change<V>>, i: nat)
    requires i < |changes|
    ensures ListAfter(changes[..i + 1]) == Changed(ListAfter(changes[..i]), changes[i])
  {
    assert changes[..i + 1][..i] == changes[..i];
  }

  lemma RemoveOnly<V>(s: seq<Entry<V>>, k: int)
    requires Sorted(s) && HasKey(s, k) && |s| == 1
    ensures Remove(s, k) == []
  {
    RemoveIsMapRemoval(s, k);
  }

  /** The same run on a finite map. */
  ghost function MapAfter<V>(changes: seq<Change<V>>): map<int, V> {
    if changes == [] then map[]
    else
      var m := MapAfter(changes[..|changes| - 1]);
      match changes[|changes| - 1]
      case Put(e) => if e.key in m then m else m[e.key := e.value]
      case Drop(k) => m - {k}
  }

  /** After every run the list is sorted, says what the map says, and has as many
      entries as the map has bindings. */
  lemma {:induction false} RunIsMapRun<V>(changes: seq<Change<V>>)
    ensures Sorted(ListAfter(changes))
    ensures AsMap(ListAfter(changes)) == MapAfter(changes)
    ensures |ListAfter(changes)| == |MapAfter(changes)|
  {
    if changes != [] {
      var before := changes[..|changes| - 1];
      RunIsMapRun(before);
      var s := ListAfter(before);
      KeysOfMap(s);
      match changes[|changes| - 1]
      case Put(e) =>
        if !HasKey(s, e.key) {
          InsertIsMapUpdate(s, e);
        }
      case Drop(k) =>
        RemoveIsMapRemoval(s, k);
    }
    SizeOfMap(ListAfter(changes));
  }

  lemma {:induction false} SizeOfMap<V>(s: seq<Entry<V>>)
    requires Sorted(s)
    ensures |AsMap(s)| == |s|
  {
    if s != [] {
      var t := s[1..];
      SizeOfMap(t);
      KeysOfMap(t);
      assert s[0].key !in AsMap(t);
      assert AsMap(s).Keys == AsMap(t).Keys + {s[0].key};
      assert |AsMap(s).Keys| == |AsMap(t).Keys| + 1;
      assert |AsMap(s)| == |AsMap(s).Keys| && |AsMap(t)| == |AsMap(t).Keys|;
    }
  }

  lemma SortedParts<V>(a: seq<Entry<V>>, m: seq<Entry<V>>, b: seq<Entry<V>>)
    requires Sorted(a + m + b)
    ensures Sorted(a) && Sorted(m) && Sorted(b)
    ensures forall i, j :: 0 <= i < |a| && 0 <= j < |m| ==> a[i].key < m[j].key
    ensures forall i, j :: 0 <= i < |m| && 0 <= j < |b| ==> m[i].key < b[j].key
    ensures forall i, j :: 0 <= i < |a| && 0 <= j < |b| ==> a[i].key < b[j].key
  {
    var s := a + m + b;
    assert forall i :: 0 <= i < |a| ==> a[i] == s[i];
    assert forall i :: 0 <= i < |m| ==> m[i] == s[|a| + i];
    assert forall i :: 0 <= i < |b| ==> b[i] == s[|a| + |m| + i];
  }

  // ---- Weaving: fs[0], ps[0], fs[1], ps[1], ..., fs[n]

  ghost function Weave<V>(fs: seq<seq<Entry<V>>>, ps: seq<Entry<V>>): seq<Entry<V>>
    requires |fs| == |ps| + 1
  {
    if ps == [] then fs[0] else fs[0] + [ps[0]] + Weave(fs[1..], ps[1..])
  }

  ghost function LeftOf<V>(fs: seq<seq<Entry<V>>>, ps: seq<Entry<V>>, i: nat): seq<Entry<V>>
    requires |fs| == |ps| + 1 && i <= |ps|
  {
    if i == 0 then [] else Weave(fs[..i], ps[..i - 1]) + [ps[i - 1]]
  }

  ghost function RightOf<V>(fs: seq<seq<Entry<V>>>, ps: seq<Entry<V>>, i: nat): seq<Entry<V>>
    requires |fs| == |ps| + 1 && i <= |ps|
  {
    if i == |ps| then [] else [ps[i]] + Weave(fs[i + 1..], ps[i + 1..])
  }

  lemma {:induction false} WeaveCut<V>(fs: seq<seq<Entry<V>>>, ps: seq<Entry<V>>, i: nat)
    requires |fs| == |ps| + 1 && i < |ps|
    ensures Weave(fs, ps) == Weave(fs[..i + 1], ps[..i]) + [ps[i]] + Weave(fs[i + 1..], ps[i + 1..])
    decreases i
  {
    if i > 0 {
      WeaveCut(fs[1..], ps[1..], i - 1);
      assert fs[1..][..i] == fs[..i + 1][1..];
      assert ps[1..][..i - 1] == ps[..i][1..];
      assert fs[1..][i..] == fs[i + 1..];
      assert ps[1..][i..] == ps[i + 1..];
    }
  }

  /** The weave seen from child `i`. */
  lemma LeftMore<V>(fs: seq<seq<Entry<V>>>, ps: seq<Entry<V>>, i: nat)
    requires |fs| == |ps| + 1 && 1 <= i <= |ps|
    ensures LeftOf(fs, ps, i) == fs[0] + [ps[0]] + LeftOf(fs[1..], ps[1..], i - 1)
  {
    assert fs[1..][..i - 1] == fs[..i][1..];
    if i > 1 {
      assert ps[1..][..i - 2] == ps[..i - 1][1..];
    }
  }

  lemma RightSame<V>(fs: seq<seq<Entry<V>>>, ps: seq<Entry<V>>, i: nat)
    requires |fs| == |ps| + 1 && 1 <= i <= |ps|
    ensures RightOf(fs, ps, i) == RightOf(fs[1..], ps[1..], i - 1)
  {
    assert fs[1..][i..] == fs[i + 1..];
    if i < |ps| {
      assert ps[1..][i..] == ps[i + 1..];
    }
  }

  lemma FirstFocus<V>(fs: seq<seq<Entry<V>>>, ps: seq<Entry<V>>)
    requires |fs| == |ps| + 1
    ensures Weave(fs, ps) == LeftOf(fs, ps, 0) + fs[0] + RightOf(fs, ps, 0)
  {}

  lemma {:induction false} WeaveFocus<V>(fs: seq<seq<Entry<V>>>, ps: seq<Entry<V>>, i: nat)
    requires |fs| == |ps| + 1 && i <= |ps|
    ensures Weave(fs, ps) == LeftOf(fs, ps, i) + fs[i] + RightOf(fs, ps, i)
    decreases i
  {
    hide LeftOf, RightOf;
    if i == 0 {
      FirstFocus(fs, ps);
    } else {
      WeaveFocus(fs[1..], ps[1..], i - 1);
      LeftMore(fs, ps, i);
      RightSame(fs, ps, i);
    }
  }

  /** Replacing child `i` by two children and a separator that together spell
      the same entries does not change the weave. Read from right to left it
      is a merge; used twice it is a borrow. */
  lemma {:induction false} WeaveExpand<V>(fs: seq<seq<Entry<V>>>, ps: seq<Entry<V>>, i: nat,
                                          l: seq<Entry<V>>, x: Entry<V>, r: seq<Entry<V>>)
    requires |fs| == |ps| + 1 && i <= |ps|
    requires fs[i] == l + [x] + r
    ensures Weave(fs[..i] + [l, r] + fs[i + 1..], ps[..i] + [x] + ps[i..]) == Weave(fs, ps)
    decreases i
  {
    var gs := fs[..i] + [l, r] + fs[i + 1..];
    var qs := ps[..i] + [x] + ps[i..];
    if i == 0 {
      assert gs[1..] == [r] + fs[1..];
      assert qs[1..] == ps;
      if ps != [] {
        assert gs[1..][1..] == fs[1..];
      }
    } else {
      WeaveExpand(fs[1..], ps[1..], i - 1, l, x, r);
      assert gs[1..] == fs[1..][..i - 1] + [l, r] + fs[1..][i..];
      assert qs[1..] == ps[1..][..i - 1] + [x] + ps[1..][i - 1..];
    }
  }

  /** In a sorted weave the separators are sorted. */
  lemma {:induction false} WeaveItemsSorted<V>(fs: seq<seq<Entry<V>>>, ps: seq<Entry<V>>)
    requires |fs| == |ps| + 1 && Sorted(Weave(fs, ps))
    ensures Sorted(ps)
  {
    if ps != [] {
      var rest := Weave(fs[1..], ps[1..]);
      assert Weave(fs, ps) == fs[0] + [ps[0]] + rest;
      SortedParts(fs[0], [ps[0]], rest);
      WeaveItemsSorted(fs[1..], ps[1..]);
      if |ps| > 1 {
        assert [ps[0]][0] == ps[0] && rest[|fs[1]|] == ps[1];
        assert ps[0].key < ps[1].key;
      }
      assert forall i :: 1 <= i < |ps| ==> ps[i] == ps[1..][i - 1];
    }
  }

  /** Where a search for `k` turns into child `i`, everything to the left of
      that child is smaller than `k` and everything to the right is larger. */
  lemma FocusGap<V>(fs: seq<seq<Entry<V>>>, ps: seq<Entry<V>>, i: nat, k: int)
    requires |fs| == |ps| + 1 && i <= |ps| && Sorted(Weave(fs, ps))
    requires i > 0 ==> ps[i - 1].key < k
    requires i < |ps| ==> k < ps[i].key
    ensures Sorted(fs[i]) && Below(LeftOf(fs, ps, i), k) && Above(RightOf(fs, ps, i), k)
    ensures HasKey(Weave(fs, ps), k) <==> HasKey(fs[i], k)
  {
    WeaveFocus(fs, ps, i);
    var l, r := LeftOf(fs, ps, i), RightOf(fs, ps, i);
    SortedParts(l, fs[i], r);
    assert i > 0 ==> l[|l| - 1] == ps[i - 1];
    assert i < |ps| ==> r[0] == ps[i];
    KeyBetween(l, fs[i], r, k);
  }

  lemma KeyBetween<V>(a: seq<Entry<V>>, m: seq<Entry<V>>, b: seq<Entry<V>>, k: int)
    requires Below(a, k) && Above(b, k)
    ensures HasKey(a + m + b, k) <==> HasKey(m, k)
  {
    var s := a + m + b;
    if HasKey(m, k) {
      var i :| 0 <= i < |m| && m[i].key == k;
      assert s[|a| + i].key == k;
    }
    if HasKey(s, k) {
      var i :| 0 <= i < |s| && s[i].key == k;
      assert |a| <= i < |a| + |m| && m[i - |a|].key == k;
    }
  }
}
