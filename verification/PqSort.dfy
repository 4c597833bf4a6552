// Partial quicksort: three-way partitioning that leaves alone the partitions
// that cannot reach the wanted range.
module PqSort {

  ghost predicate TotalPreorder<T(!new)>(cmp: (T, T) -> int) {
    && (forall x, y :: cmp(x, y) <= 0 <==> cmp(y, x) >= 0)
    && (forall x, y, z :: cmp(x, y) <= 0 && cmp(y, z) <= 0 ==> cmp(x, z) <= 0)
  }

  /** Of any two positions in `[lo, hi)`, at least one of them in `l..r`, the
      elements are in order. This makes `l..r` sorted, everything before it no
      greater and everything after it no smaller. */
  ghost predicate OrderedIn<T>(cmp: (T, T) -> int, s: seq<T>, lo: nat, hi: nat, l: nat, r: nat) {
    forall i, j :: lo <= i < j < hi <= |s| && (l <= i <= r || l <= j <= r) ==> cmp(s[i], s[j]) <= 0
  }

  ghost predicate SortedIn<T>(cmp: (T, T) -> int, s: seq<T>, lo: nat, hi: nat) {
    forall i, j :: lo <= i < j < hi <= |s| ==> cmp(s[i], s[j]) <= 0
  }

  /** Nothing outside `[lo, hi)` changed, and nothing was lost or made up. */
  ghost predicate Shuffled<T>(s: seq<T>, t: seq<T>, lo: nat, hi: nat) {
    && |s| == |t| && lo <= hi <= |s| && multiset(s) == multiset(t)
    && (forall i :: 0 <= i < |s| && !(lo <= i < hi) ==> s[i] == t[i])
  }

  /** Two elements have changed places. */
  ghost predicate Swapped<T>(s: seq<T>, t: seq<T>, i: nat, j: nat)
    requires i < |s| && j < |s|
  {
    && |t| == |s| && t[i] == s[j] && t[j] == s[i] && multiset(t) == multiset(s)
    && forall k :: 0 <= k < |s| && k != i && k != j ==> t[k] == s[k]
  }

  method Swap<T>(a: array<T>, i: nat, j: nat)
    requires i < a.Length && j < a.Length
    modifies a
    ensures Swapped(old(a[..]), a[..], i, j)
  {
    ghost var was := a[..];
    a[i], a[j] := a[j], a[i];
    assert a[..] == was[i := was[j]][j := was[i]];
  }

  lemma ShuffledSwap<T>(s: seq<T>, t: seq<T>, u: seq<T>, lo: nat, hi: nat, i: nat, j: nat)
    requires Shuffled(s, t, lo, hi) && lo <= i < hi && lo <= j < hi && Swapped(t, u, i, j)
    ensures Shuffled(s, u, lo, hi)
  {}

  /** Exchanges two disjoint blocks of `n` elements. */
  method VecSwap<T>(a: array<T>, i: nat, j: nat, n: nat)
    requires i + n <= j && j + n <= a.Length
    modifies a
    ensures multiset(a[..]) == old(multiset(a[..]))
    ensures forall k :: i <= k < i + n ==> a[k] == old(a[k + (j - i)])
    ensures forall k :: j <= k < j + n ==> a[k] == old(a[k - (j - i)])
    ensures forall k :: 0 <= k < a.Length && !(i <= k < i + n) && !(j <= k < j + n) ==> a[k] == old(a[k])
  {
    var m := 0;
    while m < n
      invariant m <= n
      invariant multiset(a[..]) == old(multiset(a[..]))
      invariant forall k :: i <= k < i + m ==> a[k] == old(a[k + (j - i)])
      invariant forall k :: j <= k < j + m ==> a[k] == old(a[k - (j - i)])
      invariant forall k :: 0 <= k < a.Length && !(i <= k < i + m) && !(j <= k < j + m) ==> a[k] == old(a[k])
    {
      Swap(a, i + m, j + m);
      m := m + 1;
    }
  }

  /** The middle one of three elements, by its position. */
  function Med3<T>(cmp: (T, T) -> int, s: seq<T>, a: nat, b: nat, c: nat): (m: nat)
    requires a < |s| && b < |s| && c < |s|
    ensures m == a || m == b || m == c
  {
    if cmp(s[a], s[b]) < 0 then
      if cmp(s[b], s[c]) < 0 then b else if cmp(s[a], s[c]) < 0 then c else a
    else
      if cmp(s[b], s[c]) > 0 then b else if cmp(s[a], s[c]) < 0 then a else c
  }

  lemma Med3IsMedian<T(!new)>(cmp: (T, T) -> int, s: seq<T>, a: nat, b: nat, c: nat)
    requires a < |s| && b < |s| && c < |s| && TotalPreorder(cmp)
    ensures var m := Med3(cmp, s, a, b, c);
      && (cmp(s[a], s[m]) <= 0 || cmp(s[b], s[m]) <= 0) && (cmp(s[b], s[m]) <= 0 || cmp(s[c], s[m]) <= 0)
      && (cmp(s[a], s[m]) <= 0 || cmp(s[c], s[m]) <= 0)
      && (cmp(s[m], s[a]) <= 0 || cmp(s[m], s[b]) <= 0) && (cmp(s[m], s[b]) <= 0 || cmp(s[m], s[c]) <= 0)
      && (cmp(s[m], s[a]) <= 0 || cmp(s[m], s[c]) <= 0)
  {}

  /** The middle one of three middle ones. */
  function Ninther<T>(cmp: (T, T) -> int, s: seq<T>, lo: nat, d: nat, mid: nat, last: nat): (m: nat)
    requires d > 0 && lo + 2 * d < mid - d && mid + d < last - 2 * d && last < |s|
    ensures lo <= m <= last
  {
    Med3(cmp, s, Med3(cmp, s, lo, lo + d, lo + 2 * d), Med3(cmp, s, mid - d, mid, mid + d),
         Med3(cmp, s, last - 2 * d, last - d, last))
  }

  /** The position of the pivot among `n >= 7` elements from `lo` on. */
  function Pivot<T>(cmp: (T, T) -> int, s: seq<T>, lo: nat, n: nat): (p: nat)
    requires n >= 7 && lo + n <= |s|
    ensures lo <= p < lo + n
  {
    var mid := lo + n / 2;
    if n == 7 then mid
    else if n <= 40 then Med3(cmp, s, lo, mid, lo + n - 1)
    else Ninther(cmp, s, lo, n / 8, mid, lo + n - 1)
  }

  /** Of three positions, the two beside the chosen one: one element is no larger,
      the other no smaller. */
  lemma BesideMedian<T(!new)>(cmp: (T, T) -> int, s: seq<T>, a: nat, b: nat, c: nat) returns (i: nat, j: nat)
    requires a < b < c < |s| && TotalPreorder(cmp)
    ensures var m := Med3(cmp, s, a, b, c);
      i in {a, b, c} && j in {a, b, c} && i != m && j != m && cmp(s[i], s[m]) <= 0 && cmp(s[m], s[j]) <= 0
  {
    hide TotalPreorder;
    var m := Med3(cmp, s, a, b, c);
    Med3IsMedian(cmp, s, a, b, c);
    var x, y := if m == a then b else a, if m == c then b else c;
    Flip(cmp, s[x], s[m]);
    Flip(cmp, s[y], s[m]);
    i := if cmp(s[x], s[m]) <= 0 then x else y;
    j := if cmp(s[m], s[x]) <= 0 then x else y;
  }

  /** From eight elements on, the pivot is not alone at either end: another element
      of the stretch is no larger, and another no smaller. */
  lemma PivotBetween<T(!new)>(cmp: (T, T) -> int, s: seq<T>, lo: nat, n: nat) returns (i: nat, j: nat)
    requires TotalPreorder(cmp) && n >= 8 && lo + n <= |s|
    ensures var p := Pivot(cmp, s, lo, n);
      lo <= i < lo + n && lo <= j < lo + n && i != p && j != p && cmp(s[i], s[p]) <= 0 && cmp(s[p], s[j]) <= 0
  {
    hide TotalPreorder, Med3, Ninther;
    var mid, last := lo + n / 2, lo + n - 1;
    if n <= 40 {
      i, j := BesideMedian(cmp, s, lo, mid, last);
    } else {
      i, j := BesideNinther(cmp, s, lo, n / 8, mid, last);
    }
  }

  lemma BesideNinther<T(!new)>(cmp: (T, T) -> int, s: seq<T>, lo: nat, d: nat, mid: nat, last: nat)
    returns (i: nat, j: nat)
    requires TotalPreorder(cmp) && last < |s|
    requires lo + 2 * d < mid - d && mid + d < last - 2 * d && d > 0
    ensures var p := Ninther(cmp, s, lo, d, mid, last);
      lo <= i <= last && lo <= j <= last && i != p && j != p && cmp(s[i], s[p]) <= 0 && cmp(s[p], s[j]) <= 0
  {
    hide TotalPreorder, Med3;
    i, j := BesideMedian(cmp, s, Med3(cmp, s, lo, lo + d, lo + 2 * d), Med3(cmp, s, mid - d, mid, mid + d),
                         Med3(cmp, s, last - 2 * d, last - d, last));
  }

  lemma Flip<T(!new)>(cmp: (T, T) -> int, x: T, y: T)
    requires TotalPreorder(cmp)
    ensures cmp(x, y) <= 0 <==> cmp(y, x) >= 0
    ensures cmp(x, x) == 0
  {}

  lemma Trans<T(!new)>(cmp: (T, T) -> int, x: T, y: T, z: T)
    requires TotalPreorder(cmp) && cmp(x, y) <= 0 && cmp(y, z) <= 0
    ensures cmp(x, z) <= 0
  {}

  /** `[lo, pm]` is in order but for the element at `pl`, which may be too small
      for its place. */
  ghost predicate Sinking<T>(cmp: (T, T) -> int, s: seq<T>, lo: nat, pm: nat, pl: nat) {
    lo <= pl <= pm < |s| && forall i, j :: lo <= i < j <= pm && j != pl ==> cmp(s[i], s[j]) <= 0
  }

  lemma SinkStart<T>(cmp: (T, T) -> int, s: seq<T>, lo: nat, pm: nat)
    requires lo <= pm < |s| && SortedIn(cmp, s, lo, pm)
    ensures Sinking(cmp, s, lo, pm, pm) && Shuffled(s, s, lo, pm + 1)
  {}

  lemma SinkStep<T(!new)>(cmp: (T, T) -> int, s: seq<T>, t: seq<T>, lo: nat, pm: nat, pl: nat)
    requires TotalPreorder(cmp) && Sinking(cmp, s, lo, pm, pl) && pl > lo && cmp(s[pl - 1], s[pl]) > 0
    requires Swapped(s, t, pl, pl - 1)
    ensures Sinking(cmp, t, lo, pm, pl - 1)
  {
    hide TotalPreorder;
    Flip(cmp, s[pl], s[pl - 1]);
  }

  lemma SinkEnd<T(!new)>(cmp: (T, T) -> int, s: seq<T>, lo: nat, pm: nat, pl: nat)
    requires TotalPreorder(cmp) && Sinking(cmp, s, lo, pm, pl) && (pl == lo || cmp(s[pl - 1], s[pl]) <= 0)
    ensures SortedIn(cmp, s, lo, pm + 1)
  {
    hide TotalPreorder;
    forall i | lo <= i < pl ensures cmp(s[i], s[pl]) <= 0 {
      if i < pl - 1 {
        Trans(cmp, s[i], s[pl - 1], s[pl]);
      }
    }
  }

  /** Moves the element at `pm` down past the larger ones before it. */
  method Sink<T(!new)>(a: array<T>, cmp: (T, T) -> int, lo: nat, pm: nat)
    requires TotalPreorder(cmp) && lo <= pm < a.Length && SortedIn(cmp, a[..], lo, pm)
    modifies a
    ensures Shuffled(old(a[..]), a[..], lo, pm + 1) && SortedIn(cmp, a[..], lo, pm + 1)
  {
    hide *;
    var pl := pm;
    ghost var start := a[..];
    SinkStart(cmp, start, lo, pm);
    while pl > lo && cmp(a[pl - 1], a[pl]) > 0
      invariant lo <= pl <= pm
      invariant Shuffled(start, a[..], lo, pm + 1)
      invariant Sinking(cmp, a[..], lo, pm, pl)
    {
      ghost var was := a[..];
      Swap(a, pl, pl - 1);
      SinkStep(cmp, was, a[..], lo, pm, pl);
      ShuffledSwap(start, was, a[..], lo, pm + 1, pl, pl - 1);
      pl := pl - 1;
    }
    SinkEnd(cmp, a[..], lo, pm, pl);
  }

  method InsertionSort<T(!new)>(a: array<T>, cmp: (T, T) -> int, lo: nat, n: nat)
    requires TotalPreorder(cmp) && lo + n <= a.Length
    modifies a
    ensures Shuffled(old(a[..]), a[..], lo, lo + n) && SortedIn(cmp, a[..], lo, lo + n)
  {
    hide TotalPreorder;
    var pm := lo + 1;
    while pm < lo + n
      invariant lo + 1 <= pm
      invariant Shuffled(old(a[..]), a[..], lo, lo + n)
      invariant SortedIn(cmp, a[..], lo, pm)
      invariant pm > lo + n ==> n == 0
    {
      Sink(a, cmp, lo, pm);
      pm := pm + 1;
    }
  }

  /** While partitioning `[lo, hi)` around `p`: equal elements gather at both
      ends, smaller ones follow on the left, larger ones on the right, and what
      lies between `pb` and `pc` has not been looked at. */
  ghost predicate Zones<T>(cmp: (T, T) -> int, s: seq<T>, p: T, lo: int, hi: int, pa: int, pb: int, pc: int, pd: int) {
    && 0 <= lo < pa <= pb <= pc + 1 && pc <= pd < hi <= |s| && s[lo] == p
    && (forall k :: lo < k < pa ==> cmp(s[k], p) == 0)
    && (forall k :: pa <= k < pb ==> cmp(s[k], p) < 0)
    && (forall k :: pc < k <= pd ==> cmp(s[k], p) > 0)
    && (forall k :: pd < k < hi ==> cmp(s[k], p) == 0)
  }

  /** Smaller elements first, then those equal to the pivot, then larger ones. */
  ghost predicate Parted<T>(cmp: (T, T) -> int, s: seq<T>, p: T, lo: nat, hi: nat, x: nat, y: nat) {
    && lo + x + y < hi <= |s|
    && (forall k :: lo <= k < lo + x ==> cmp(s[k], p) < 0)
    && (forall k :: lo + x <= k < hi - y ==> cmp(s[k], p) == 0)
    && (forall k :: hi - y <= k < hi ==> cmp(s[k], p) > 0)
  }

  /** An element equal to the pivot joins those at the left end. */
  lemma EqualUp<T>(cmp: (T, T) -> int, s: seq<T>, t: seq<T>, p: T, lo: nat, hi: nat, pa: int, pb: int, pc: int, pd: int)
    requires Zones(cmp, s, p, lo, hi, pa, pb, pc, pd) && pb <= pc && cmp(s[pb], p) == 0 && Swapped(s, t, pa, pb)
    ensures Zones(cmp, t, p, lo, hi, pa + 1, pb + 1, pc, pd)
  {}

  lemma SmallerUp<T>(cmp: (T, T) -> int, s: seq<T>, p: T, lo: nat, hi: nat, pa: int, pb: int, pc: int, pd: int)
    requires Zones(cmp, s, p, lo, hi, pa, pb, pc, pd) && pb <= pc && cmp(s[pb], p) < 0
    ensures Zones(cmp, s, p, lo, hi, pa, pb + 1, pc, pd)
  {}

  /** An element equal to the pivot joins those at the right end. */
  lemma EqualDown<T>(cmp: (T, T) -> int, s: seq<T>, t: seq<T>, p: T, lo: nat, hi: nat, pa: int, pb: int, pc: int,
                     pd: int)
    requires Zones(cmp, s, p, lo, hi, pa, pb, pc, pd) && pb <= pc && cmp(s[pc], p) == 0 && Swapped(s, t, pc, pd)
    requires cmp(s[pb], p) > 0
    ensures Zones(cmp, t, p, lo, hi, pa, pb, pc - 1, pd - 1)
    ensures pb <= pc - 1 ==> cmp(t[pb], p) > 0
  {}

  lemma LargerDown<T>(cmp: (T, T) -> int, s: seq<T>, p: T, lo: nat, hi: nat, pa: int, pb: int, pc: int, pd: int)
    requires Zones(cmp, s, p, lo, hi, pa, pb, pc, pd) && pb <= pc && cmp(s[pc], p) > 0
    ensures Zones(cmp, s, p, lo, hi, pa, pb, pc - 1, pd)
  {}

  lemma ShuffledSelf<T>(s: seq<T>, lo: nat, hi: nat)
    requires lo <= hi <= |s|
    ensures Shuffled(s, s, lo, hi)
  {}

  method ScanUp<T(!new)>(a: array<T>, cmp: (T, T) -> int, lo: nat, hi: nat, pa0: int, pb0: int, pc: int, pd: int)
    returns (pa: int, pb: int)
    requires lo < hi <= a.Length && Zones(cmp, a[..], a[lo], lo, hi, pa0, pb0, pc, pd)
    modifies a
    ensures Shuffled(old(a[..]), a[..], lo, hi) && a[lo] == old(a[lo])
    ensures Zones(cmp, a[..], a[lo], lo, hi, pa, pb, pc, pd) && pb >= pb0
    ensures pb <= pc ==> cmp(a[pb], a[lo]) > 0
  {
    hide *;
    pa, pb := pa0, pb0;
    ghost var start, p := a[..], a[lo];
    ShuffledSelf(start, lo, hi);
    ZonesBounds(cmp, start, p, lo, hi, pa, pb, pc, pd);
    while pb <= pc && cmp(a[pb], a[lo]) <= 0
      invariant lo < pa <= pb <= pc + 1 && pc <= pd < hi && pb >= pb0 && a[lo] == p
      invariant Shuffled(start, a[..], lo, hi) && Zones(cmp, a[..], p, lo, hi, pa, pb, pc, pd)
      decreases pc - pb
    {
      ghost var was := a[..];
      if cmp(a[pb], a[lo]) == 0 {
        Swap(a, pa, pb);
        ShuffledSwap(start, was, a[..], lo, hi, pa, pb);
        EqualUp(cmp, was, a[..], p, lo, hi, pa, pb, pc, pd);
        pa := pa + 1;
      } else {
        SmallerUp(cmp, was, p, lo, hi, pa, pb, pc, pd);
      }
      pb := pb + 1;
      ZonesBounds(cmp, a[..], p, lo, hi, pa, pb, pc, pd);
    }
  }

  method ScanDown<T(!new)>(a: array<T>, cmp: (T, T) -> int, lo: nat, hi: nat, pa: int, pb: int, pc0: int, pd0: int)
    returns (pc: int, pd: int)
    requires lo < hi <= a.Length && Zones(cmp, a[..], a[lo], lo, hi, pa, pb, pc0, pd0)
    requires pb <= pc0 ==> cmp(a[pb], a[lo]) > 0
    modifies a
    ensures Shuffled(old(a[..]), a[..], lo, hi) && a[lo] == old(a[lo])
    ensures Zones(cmp, a[..], a[lo], lo, hi, pa, pb, pc, pd) && pc <= pc0
    ensures pb <= pc ==> cmp(a[pc], a[lo]) < 0 && cmp(a[pb], a[lo]) > 0
  {
    hide *;
    pc, pd := pc0, pd0;
    ghost var start, p := a[..], a[lo];
    ShuffledSelf(start, lo, hi);
    ZonesBounds(cmp, start, p, lo, hi, pa, pb, pc, pd);
    while pb <= pc && cmp(a[pc], a[lo]) >= 0
      invariant lo < pa <= pb <= pc + 1 && pc <= pd < hi && pc <= pc0 && a[lo] == p
      invariant Shuffled(start, a[..], lo, hi) && Zones(cmp, a[..], p, lo, hi, pa, pb, pc, pd)
      invariant pb <= pc ==> cmp(a[pb], p) > 0
      decreases pc - pb
    {
      ghost var was := a[..];
      if cmp(a[pc], a[lo]) == 0 {
        Swap(a, pc, pd);
        ShuffledSwap(start, was, a[..], lo, hi, pc, pd);
        EqualDown(cmp, was, a[..], p, lo, hi, pa, pb, pc, pd);
        pd := pd - 1;
      } else {
        LargerDown(cmp, was, p, lo, hi, pa, pb, pc, pd);
      }
      pc := pc - 1;
      ZonesBounds(cmp, a[..], p, lo, hi, pa, pb, pc, pd);
    }
  }

  lemma ZonesSwap<T>(cmp: (T, T) -> int, s: seq<T>, t: seq<T>, p: T, lo: nat, hi: nat,
                     pa: int, pb: int, pc: int, pd: int)
    requires Zones(cmp, s, p, lo, hi, pa, pb, pc, pd) && pb <= pc && cmp(s[pb], p) > 0 && cmp(s[pc], p) < 0
    requires Swapped(s, t, pb, pc)
    ensures Zones(cmp, t, p, lo, hi, pa, pb + 1, pc - 1, pd) && pb != pc
  {}

  lemma ZonesBounds<T>(cmp: (T, T) -> int, s: seq<T>, p: T, lo: nat, hi: nat, pa: int, pb: int, pc: int, pd: int)
    requires Zones(cmp, s, p, lo, hi, pa, pb, pc, pd)
    ensures lo < pa <= pb <= pc + 1 && pc <= pd < hi <= |s| && s[lo] == p
  {}

  method SplitZones<T(!new)>(a: array<T>, cmp: (T, T) -> int, lo: nat, hi: nat)
    returns (pa: int, pb: int, pc: int, pd: int)
    requires lo + 1 < hi <= a.Length && cmp(a[lo], a[lo]) == 0
    modifies a
    ensures Shuffled(old(a[..]), a[..], lo, hi)
    ensures Zones(cmp, a[..], old(a[lo]), lo, hi, pa, pb, pc, pd) && pb == pc + 1
  {
    hide *;
    pa, pb, pc, pd := lo + 1, lo + 1, hi - 1, hi - 1;
    ghost var start, p := a[..], a[lo];
    ShuffledSelf(start, lo, hi);
    NoZones(cmp, start, p, lo, hi);
    while true
      invariant a[lo] == p && Shuffled(start, a[..], lo, hi)
      invariant Zones(cmp, a[..], p, lo, hi, pa, pb, pc, pd)
      decreases pc - pb
    {
      ghost var s0 := a[..];
      pa, pb := ScanUp(a, cmp, lo, hi, pa, pb, pc, pd);
      ghost var s1 := a[..];
      pc, pd := ScanDown(a, cmp, lo, hi, pa, pb, pc, pd);
      ghost var s2 := a[..];
      ShuffledTrans(s0, s1, s2, lo, lo, hi);
      ShuffledTrans(start, s0, s2, lo, lo, hi);
      ZonesBounds(cmp, s2, p, lo, hi, pa, pb, pc, pd);
      if pb > pc {
        break;
      }
      Swap(a, pb, pc);
      ghost var s3 := a[..];
      ShuffledSwap(start, s2, s3, lo, hi, pb, pc);
      ZonesSwap(cmp, s2, s3, p, lo, hi, pa, pb, pc, pd);
      pb := pb + 1;
      pc := pc - 1;
      ZonesBounds(cmp, s3, p, lo, hi, pa, pb, pc, pd);
    }
  }

  /** Before the first step nothing has been looked at. */
  lemma NoZones<T>(cmp: (T, T) -> int, s: seq<T>, p: T, lo: nat, hi: nat)
    requires lo + 1 < hi <= |s| && s[lo] == p
    ensures Zones(cmp, s, p, lo, hi, lo + 1, lo + 1, hi - 1, hi - 1)
  {}

  /** Brings the equal elements of the left end next to the middle. */
  method GatherLeft<T(!new)>(a: array<T>, cmp: (T, T) -> int, ghost p: T, lo: nat, hi: nat,
                             pa: nat, pb: nat, ghost pd: nat)
    requires hi <= a.Length && Zones(cmp, a[..], p, lo, hi, pa, pb, pb - 1, pd) && cmp(p, p) == 0
    modifies a
    ensures Shuffled(old(a[..]), a[..], lo, hi)
    ensures forall k :: lo <= k < lo + (pb - pa) ==> cmp(a[k], p) < 0
    ensures forall k :: lo + (pb - pa) <= k < pb ==> cmp(a[k], p) == 0
    ensures forall k :: pb <= k <= pd ==> cmp(a[k], p) > 0
    ensures forall k :: pd < k < hi ==> cmp(a[k], p) == 0
  {
    var r := if pa - lo < pb - pa then pa - lo else pb - pa;
    VecSwap(a, lo, pb - r, r);
  }

  /** Brings the equal elements of the right end next to the middle. */
  method GatherRight<T(!new)>(a: array<T>, cmp: (T, T) -> int, ghost p: T, ghost lo: nat, hi: nat, ghost x: nat,
                              pb: nat, pd: int)
    requires lo + x < pb <= pd + 1 <= hi <= a.Length
    requires forall k :: lo <= k < lo + x ==> cmp(a[k], p) < 0
    requires forall k :: lo + x <= k < pb ==> cmp(a[k], p) == 0
    requires forall k :: pb <= k <= pd ==> cmp(a[k], p) > 0
    requires forall k :: pd < k < hi ==> cmp(a[k], p) == 0
    modifies a
    ensures Shuffled(old(a[..]), a[..], lo, hi)
    ensures Parted(cmp, a[..], p, lo, hi, x, pd + 1 - pb)
  {
    var r := if pd + 1 - pb < hi - pd - 1 then pd + 1 - pb else hi - pd - 1;
    VecSwap(a, pb, hi - r, r);
  }

  /** Partitions `[lo, hi)` around the pivot, which stands at `lo`. */
  method Partition<T(!new)>(a: array<T>, cmp: (T, T) -> int, lo: nat, hi: nat) returns (x: nat, y: nat)
    requires TotalPreorder(cmp) && lo + 1 < hi <= a.Length
    modifies a
    ensures Shuffled(old(a[..]), a[..], lo, hi)
    ensures Parted(cmp, a[..], old(a[lo]), lo, hi, x, y)
  {
    hide TotalPreorder, Sinking, SortedIn;
    Flip(cmp, a[lo], a[lo]);
    ghost var p := a[lo];
    var pa, pb, pc, pd := SplitZones(a, cmp, lo, hi);
    GatherLeft(a, cmp, p, lo, hi, pa, pb, pd);
    x, y := pb - pa, pd - pc;
    GatherRight(a, cmp, p, lo, hi, x, pb, pd);
  }

  lemma MultisetCancel<T>(a: seq<T>, s: seq<T>, t: seq<T>, c: seq<T>)
    requires multiset(a + s + c) == multiset(a + t + c)
    ensures multiset(s) == multiset(t)
  {
    assert multiset(a + s + c) == multiset(a) + multiset(s) + multiset(c);
    assert multiset(a + t + c) == multiset(a) + multiset(t) + multiset(c);
    assert forall x :: multiset(s)[x] == multiset(a + s + c)[x] - multiset(a)[x] - multiset(c)[x];
    assert forall x :: multiset(t)[x] == multiset(a + t + c)[x] - multiset(a)[x] - multiset(c)[x];
  }

  lemma Cut3<T>(s: seq<T>, lo: nat, hi: nat)
    requires lo <= hi <= |s|
    ensures s == s[..lo] + s[lo..hi] + s[hi..]
  {}

  lemma SameEnds<T>(s: seq<T>, t: seq<T>, lo: nat, hi: nat)
    requires Shuffled(s, t, lo, hi)
    ensures s[..lo] == t[..lo] && s[hi..] == t[hi..]
  {}

  lemma SameMembers<T>(s: seq<T>, t: seq<T>)
    requires multiset(s) == multiset(t)
    ensures forall x :: x in t ==> x in s
  {
    forall x | x in t ensures x in s {
      assert x in multiset(t);
    }
  }

  /** What stands in the shuffled stretch was there before. */
  lemma ShuffledFrom<T>(s: seq<T>, t: seq<T>, lo: nat, hi: nat)
    requires Shuffled(s, t, lo, hi)
    ensures multiset(s[lo..hi]) == multiset(t[lo..hi])
    ensures forall k :: lo <= k < hi ==> t[k] in s[lo..hi]
  {
    SameEnds(s, t, lo, hi);
    var m, n := s[lo..hi], t[lo..hi];
    ShuffledMiddle(s, t, lo, hi);
    SameMembers(m, n);
    forall k | lo <= k < hi ensures t[k] in m {
      assert t[k] == n[k - lo];
    }
  }

  lemma ShuffledMiddle<T>(s: seq<T>, t: seq<T>, lo: nat, hi: nat)
    requires Shuffled(s, t, lo, hi)
    ensures multiset(s[lo..hi]) == multiset(t[lo..hi])
  {
    Cut3(s, lo, hi);
    Cut3(t, lo, hi);
    SameEnds(s, t, lo, hi);
    MultisetCancel(s[..lo], s[lo..hi], t[lo..hi], s[hi..]);
  }

  ghost predicate AllBefore<T>(cmp: (T, T) -> int, s: seq<T>, lo: nat, mid: nat, hi: nat) {
    forall i, j :: lo <= i < mid <= j < hi <= |s| ==> cmp(s[i], s[j]) <= 0
  }

  lemma AllBeforeShuffledRight<T>(cmp: (T, T) -> int, s: seq<T>, t: seq<T>, lo: nat, mid: nat, hi: nat)
    requires lo <= mid && Shuffled(s, t, mid, hi) && AllBefore(cmp, s, lo, mid, hi)
    ensures AllBefore(cmp, t, lo, mid, hi)
  {
    ShuffledFrom(s, t, mid, hi);
    forall i, j | lo <= i < mid <= j < hi ensures cmp(t[i], t[j]) <= 0 {
      var m :| 0 <= m < hi - mid && s[mid..hi][m] == t[j];
      assert s[mid + m] == t[j] && s[i] == t[i];
    }
  }

  lemma PartedShuffledLeft<T>(cmp: (T, T) -> int, s: seq<T>, t: seq<T>, p: T, lo: nat, hi: nat, x: nat, y: nat)
    requires Parted(cmp, s, p, lo, hi, x, y) && Shuffled(s, t, lo, lo + x)
    ensures Parted(cmp, t, p, lo, hi, x, y)
  {
    ShuffledFrom(s, t, lo, lo + x);
    forall k | lo <= k < lo + x ensures cmp(t[k], p) < 0 {
      var m :| 0 <= m < x && s[lo..lo + x][m] == t[k];
      assert s[lo + m] == t[k];
    }
  }

  /** Once its left part is in order, a partitioned stretch is in order but for
      its right part, which is no smaller. */
  lemma PartedOrdered<T(!new)>(cmp: (T, T) -> int, s: seq<T>, p: T, lo: nat, hi: nat, x: nat, y: nat, l: nat, r: nat)
    requires TotalPreorder(cmp) && Parted(cmp, s, p, lo, hi, x, y) && OrderedIn(cmp, s, lo, lo + x, l, r)
    ensures OrderedIn(cmp, s, lo, hi - y, l, r) && AllBefore(cmp, s, lo, hi - y, hi)
  {
    hide TotalPreorder;
    forall i, j | lo <= i < j < hi && (lo + x <= j || hi - y <= j) ensures i < hi - y ==> cmp(s[i], s[j]) <= 0 {
      if i < hi - y {
        Flip(cmp, p, s[j]);
        Trans(cmp, s[i], p, s[j]);
      }
    }
  }

  lemma OrderedJoin<T>(cmp: (T, T) -> int, s: seq<T>, lo: nat, mid: nat, hi: nat, l: nat, r: nat)
    requires lo <= mid <= hi <= |s| && AllBefore(cmp, s, lo, mid, hi)
    requires OrderedIn(cmp, s, lo, mid, l, r) && OrderedIn(cmp, s, mid, hi, l, r)
    ensures OrderedIn(cmp, s, lo, hi, l, r)
  {}

  /** The stretch `[lo, hi)` cannot reach `l..r`. */
  predicate Misses(lo: nat, hi: nat, l: nat, r: nat) {
    (l < lo && r < lo) || (l > hi - 1 && r > hi - 1)
  }

  lemma ShuffledTrans<T>(s: seq<T>, t: seq<T>, u: seq<T>, lo0: nat, lo: nat, hi: nat)
    requires lo0 <= lo && Shuffled(s, t, lo0, hi) && Shuffled(t, u, lo, hi)
    ensures Shuffled(s, u, lo0, hi)
  {}

  lemma SmallDone<T>(cmp: (T, T) -> int, s: seq<T>, t: seq<T>, lo0: nat, lo: nat, hi: nat, l: nat, r: nat)
    requires lo0 <= lo && Shuffled(s, t, lo, hi) && SortedIn(cmp, t, lo, hi)
    requires AllBefore(cmp, s, lo0, lo, hi) && OrderedIn(cmp, s, lo0, lo, l, r)
    ensures OrderedIn(cmp, t, lo0, hi, l, r)
  {
    assert OrderedIn(cmp, t, lo, hi, l, r) && OrderedIn(cmp, t, lo0, lo, l, r);
    AllBeforeShuffledRight(cmp, s, t, lo0, lo, hi);
    OrderedJoin(cmp, t, lo0, lo, hi, l, r);
  }

  /** `s` is in order up to `lo` as far as is wanted, and the rest is no smaller. */
  ghost predicate DoneUpTo<T>(cmp: (T, T) -> int, start: seq<T>, s: seq<T>, lo0: nat, lo: nat, hi: nat, l: nat,
                              r: nat) {
    Shuffled(start, s, lo0, hi) && AllBefore(cmp, s, lo0, lo, hi) && OrderedIn(cmp, s, lo0, lo, l, r)
  }

  lemma NothingDone<T>(cmp: (T, T) -> int, s: seq<T>, lo: nat, hi: nat, l: nat, r: nat)
    requires lo <= hi <= |s|
    ensures DoneUpTo(cmp, s, s, lo, lo, hi, l, r)
  {}

  lemma RestMisses<T>(cmp: (T, T) -> int, start: seq<T>, s: seq<T>, lo0: nat, lo: nat, hi: nat, l: nat, r: nat)
    requires DoneUpTo(cmp, start, s, lo0, lo, hi, l, r) && lo0 <= lo <= hi && (hi <= lo + 1 || Misses(lo, hi, l, r))
    ensures Shuffled(start, s, lo0, hi) && OrderedIn(cmp, s, lo0, hi, l, r)
  {
    hide AllBefore, OrderedIn, Misses;
    NothingToOrder(cmp, s, lo, hi, l, r);
    OrderedJoin(cmp, s, lo0, lo, hi, l, r);
  }

  lemma RestSorted<T>(cmp: (T, T) -> int, start: seq<T>, s: seq<T>, t: seq<T>, lo0: nat, lo: nat, hi: nat, l: nat,
                      r: nat)
    requires DoneUpTo(cmp, start, s, lo0, lo, hi, l, r) && lo0 <= lo
    requires Shuffled(s, t, lo, hi) && SortedIn(cmp, t, lo, hi)
    ensures Shuffled(start, t, lo0, hi) && OrderedIn(cmp, t, lo0, hi, l, r)
  {
    hide AllBefore, OrderedIn, Shuffled, SortedIn;
    ShuffledTrans(start, s, t, lo0, lo, hi);
    SmallDone(cmp, s, t, lo0, lo, hi, l, r);
  }

  method SortRange<T(!new)>(a: array<T>, cmp: (T, T) -> int, lo0: nat, n0: nat, l: nat, r: nat)
    requires TotalPreorder(cmp) && lo0 + n0 <= a.Length
    modifies a
    ensures Shuffled(old(a[..]), a[..], lo0, lo0 + n0)
    ensures OrderedIn(cmp, a[..], lo0, lo0 + n0, l, r)
    decreases n0, 2
  {
    hide *;
    var lo: nat, n: nat := lo0, n0;
    ghost var start, hi := a[..], lo0 + n0;
    NothingDone(cmp, start, lo, hi, l, r);
    while n >= 7
      invariant lo0 <= lo && lo + n == hi && n <= n0
      invariant DoneUpTo(cmp, start, a[..], lo0, lo, hi, l, r)
      decreases n
    {
      var y := SortLeft(a, cmp, start, lo0, lo, n, l, r);
      if y <= 1 || Misses(lo + n - y, lo + n, l, r) {
        RestMisses(cmp, start, a[..], lo0, hi - y, hi, l, r);
        return;
      }
      lo, n := lo + n - y, y;
    }
    ghost var was := a[..];
    InsertionSort(a, cmp, lo, n);
    RestSorted(cmp, start, was, a[..], lo0, lo, hi, l, r);
  }

  /** One partition, and the recursion into its left part if that can reach the
      range: everything up to the last `y` elements is then in order. */
  method SortLeft<T(!new)>(a: array<T>, cmp: (T, T) -> int, ghost start: seq<T>, ghost lo0: nat, lo: nat, n: nat,
                           l: nat, r: nat)
    returns (y: nat)
    requires TotalPreorder(cmp) && n >= 7 && lo0 <= lo && lo + n <= a.Length
    requires DoneUpTo(cmp, start, a[..], lo0, lo, lo + n, l, r)
    modifies a
    ensures y < n && DoneUpTo(cmp, start, a[..], lo0, lo + n - y, lo + n, l, r)
    decreases n, 1
  {
    hide *;
    ghost var was := a[..];
    y := PartAndRecurse(a, cmp, lo, n, l, r);
    LeftDone(cmp, start, was, a[..], lo0, lo, lo + n, y, l, r);
  }

  lemma LeftDone<T>(cmp: (T, T) -> int, start: seq<T>, s: seq<T>, t: seq<T>, lo0: nat, lo: nat, hi: nat, y: nat,
                    l: nat, r: nat)
    requires lo0 <= lo && y <= hi - lo && Shuffled(s, t, lo, hi)
    requires DoneUpTo(cmp, start, s, lo0, lo, hi, l, r) && DoneUpTo(cmp, s, t, lo, hi - y, hi, l, r)
    ensures DoneUpTo(cmp, start, t, lo0, hi - y, hi, l, r)
  {
    ShuffledTrans(start, s, t, lo0, lo, hi);
    AllBeforeShuffledRight(cmp, s, t, lo0, lo, hi);
    OrderedJoin(cmp, t, lo0, lo, hi - y, l, r);
  }

  method PartAndRecurse<T(!new)>(a: array<T>, cmp: (T, T) -> int, lo: nat, n: nat, l: nat, r: nat)
    returns (y: nat)
    requires TotalPreorder(cmp) && n >= 7 && lo + n <= a.Length
    modifies a
    ensures y < n && Shuffled(old(a[..]), a[..], lo, lo + n)
    ensures DoneUpTo(cmp, old(a[..]), a[..], lo, lo + n - y, lo + n, l, r)
    decreases n, 0
  {
    hide *;
    ghost var start, hi := a[..], lo + n;
    var pivot := Pivot(cmp, a[..], lo, n);
    Swap(a, lo, pivot);
    ghost var swapped, p := a[..], a[lo];
    ShuffledSelf(start, lo, hi);
    ShuffledSwap(start, start, swapped, lo, hi, lo, pivot);
    var x;
    x, y := Partition(a, cmp, lo, lo + n);
    ghost var parted := a[..];
    ShuffledTrans(start, swapped, parted, lo, lo, hi);
    PartedSizes(cmp, parted, p, lo, hi, x, y);
    if x > 1 && !Misses(lo, lo + x, l, r) {
      SortRange(a, cmp, lo, x, l, r);
      PartedShuffledLeft(cmp, parted, a[..], p, lo, hi, x, y);
      ShuffledWider(parted, a[..], lo, lo + x, hi);
      ShuffledTrans(start, parted, a[..], lo, lo, hi);
    } else {
      NothingToOrder(cmp, parted, lo, lo + x, l, r);
    }
    ghost var now := a[..];
    PartedOrdered(cmp, now, p, lo, hi, x, y, l, r);
    PartDone(cmp, start, now, lo, hi - y, hi, l, r);
  }

  lemma PartDone<T>(cmp: (T, T) -> int, start: seq<T>, s: seq<T>, lo: nat, mid: nat, hi: nat, l: nat, r: nat)
    requires Shuffled(start, s, lo, hi) && AllBefore(cmp, s, lo, mid, hi) && OrderedIn(cmp, s, lo, mid, l, r)
    ensures DoneUpTo(cmp, start, s, lo, mid, hi, l, r)
  {
    hide Shuffled, AllBefore, OrderedIn;
  }

  lemma ShuffledWider<T>(s: seq<T>, t: seq<T>, lo: nat, mid: nat, hi: nat)
    requires Shuffled(s, t, lo, mid) && mid <= hi <= |s|
    ensures Shuffled(s, t, lo, hi)
  {}

  lemma PartedSizes<T>(cmp: (T, T) -> int, s: seq<T>, p: T, lo: nat, hi: nat, x: nat, y: nat)
    requires Parted(cmp, s, p, lo, hi, x, y)
    ensures lo + x + y < hi <= |s|
  {}

  lemma NothingToOrder<T>(cmp: (T, T) -> int, s: seq<T>, lo: nat, hi: nat, l: nat, r: nat)
    requires hi <= lo + 1 || Misses(lo, hi, l, r)
    ensures OrderedIn(cmp, s, lo, hi, l, r)
  {}

  /** Sorts so much of the array that positions `l..r` hold what they would
      after a full sort. */
  method PqSort<T(!new)>(a: array<T>, cmp: (T, T) -> int, l: nat, r: nat)
    requires TotalPreorder(cmp)
    modifies a
    ensures multiset(a[..]) == multiset(old(a[..]))
    ensures OrderedIn(cmp, a[..], 0, a.Length, l, r)
    ensures forall i, j :: 0 <= i < j < a.Length && (l <= i <= r || l <= j <= r) ==> cmp(a[i], a[j]) <= 0
  {
    SortRange(a, cmp, 0, a.Length, l, r);
  }

  // ---- The order of the range determines what stands in it

  ghost function CountAtMost<T>(cmp: (T, T) -> int, s: seq<T>, x: T): nat {
    if s == [] then 0 else (if cmp(s[0], x) <= 0 then 1 else 0) + CountAtMost(cmp, s[1..], x)
  }

  lemma {:induction false} CountConcat<T>(cmp: (T, T) -> int, s: seq<T>, t: seq<T>, x: T)
    ensures CountAtMost(cmp, s + t, x) == CountAtMost(cmp, s, x) + CountAtMost(cmp, t, x)
  {
    if s == [] {
      assert s + t == t;
    } else {
      CountConcat(cmp, s[1..], t, x);
      assert (s + t)[1..] == s[1..] + t;
    }
  }

  /** The multiset of `t` without one occurrence, found at `i`. */
  lemma DropOne<T>(s: seq<T>, t: seq<T>, i: nat)
    requires s != [] && i < |t| && t[i] == s[0] && multiset(s) == multiset(t)
    ensures multiset(s[1..]) == multiset(t[..i] + t[i + 1..])
  {
    assert s == [s[0]] + s[1..];
    assert t == t[..i] + [t[i]] + t[i + 1..];
    var a, b, m := multiset(s[1..]), multiset(t[..i] + t[i + 1..]), multiset{s[0]};
    assert multiset(s) == a + m && multiset(t) == b + m;
    assert forall x :: a[x] == (a + m)[x] - m[x] && b[x] == (b + m)[x] - m[x];
  }

  lemma CountDrop<T>(cmp: (T, T) -> int, t: seq<T>, i: nat, x: T)
    requires i < |t|
    ensures CountAtMost(cmp, t, x)
         == CountAtMost(cmp, t[..i] + t[i + 1..], x) + if cmp(t[i], x) <= 0 then 1 else 0
  {
    assert t == t[..i] + t[i..];
    CountConcat(cmp, t[..i], t[i + 1..], x);
    CountConcat(cmp, t[..i], t[i..], x);
    assert t[i..][1..] == t[i + 1..];
  }

  /** Counting does not depend on the order. */
  lemma {:induction false} CountShuffled<T>(cmp: (T, T) -> int, s: seq<T>, t: seq<T>, x: T)
    requires multiset(s) == multiset(t)
    ensures CountAtMost(cmp, s, x) == CountAtMost(cmp, t, x)
  {
    assert |s| == |multiset(s)| == |multiset(t)| == |t|;
    if s != [] {
      assert s[0] in multiset(t);
      var i :| 0 <= i < |t| && t[i] == s[0];
      DropOne(s, t, i);
      CountDrop(cmp, t, i, x);
      CountShuffled(cmp, s[1..], t[..i] + t[i + 1..], x);
    }
  }

  lemma {:induction false} CountAll<T>(cmp: (T, T) -> int, s: seq<T>, x: T)
    ensures CountAtMost(cmp, s, x) <= |s|
    ensures (forall i :: 0 <= i < |s| ==> cmp(s[i], x) <= 0) ==> CountAtMost(cmp, s, x) == |s|
    ensures (forall i :: 0 <= i < |s| ==> cmp(s[i], x) > 0) ==> CountAtMost(cmp, s, x) == 0
  {
    if s != [] {
      assert forall i :: 0 <= i < |s[1..]| ==> s[1..][i] == s[i + 1];
      CountAll(cmp, s[1..], x);
    }
  }

  lemma CountAtLeast<T>(cmp: (T, T) -> int, s: seq<T>, x: T, i: nat)
    requires i < |s| && forall j :: 0 <= j <= i ==> cmp(s[j], x) <= 0
    ensures CountAtMost(cmp, s, x) >= i + 1
  {
    assert s == s[..i + 1] + s[i + 1..];
    CountConcat(cmp, s[..i + 1], s[i + 1..], x);
    CountAll(cmp, s[..i + 1], x);
  }

  lemma CountBelow<T>(cmp: (T, T) -> int, t: seq<T>, x: T, i: nat)
    requires i <= |t| && forall j :: i <= j < |t| ==> cmp(t[j], x) > 0
    ensures CountAtMost(cmp, t, x) <= i
  {
    assert t == t[..i] + t[i..];
    CountConcat(cmp, t[..i], t[i..], x);
    CountAll(cmp, t[..i], x);
    CountAll(cmp, t[i..], x);
  }

  /** If nothing up to `i` in `s` is larger than `s[i]`, and nothing from `i` on
      in `t` is smaller than `t[i]`, then `s[i]` is not below `t[i]`. */
  lemma NotBelow<T(!new)>(cmp: (T, T) -> int, s: seq<T>, t: seq<T>, i: nat)
    requires TotalPreorder(cmp) && multiset(s) == multiset(t) && i < |s| && i < |t|
    requires forall j :: 0 <= j <= i ==> cmp(s[j], s[i]) <= 0
    requires forall j :: i <= j < |t| ==> cmp(t[i], t[j]) <= 0
    ensures cmp(s[i], t[i]) >= 0
  {
    hide TotalPreorder;
    var x := s[i];
    CountShuffled(cmp, s, t, x);
    CountAtLeast(cmp, s, x, i);
    if cmp(x, t[i]) < 0 {
      Flip(cmp, t[i], x);
      forall j | i <= j < |t| ensures cmp(t[j], x) > 0 {
        if cmp(t[j], x) <= 0 {
          Trans(cmp, t[i], t[j], x);
        }
      }
      CountBelow(cmp, t, x, i);
    }
  }

  /** Positions `l..r` of a partially sorted arrangement agree, up to what the
      comparison can tell, with any full sort of the same elements. */
  lemma PartialAgreesWithFull<T(!new)>(cmp: (T, T) -> int, s: seq<T>, t: seq<T>, l: nat, r: nat, i: nat)
    requires TotalPreorder(cmp) && multiset(s) == multiset(t)
    requires OrderedIn(cmp, s, 0, |s|, l, r) && SortedIn(cmp, t, 0, |t|)
    requires l <= i <= r && i < |s|
    ensures |s| == |t| && cmp(s[i], t[i]) == 0
  {
    assert |s| == |multiset(s)| == |multiset(t)| == |t|;
    Flip(cmp, s[i], s[i]);
    Flip(cmp, t[i], t[i]);
    hide TotalPreorder;
    NotBelow(cmp, s, t, i);
    NotBelow(cmp, t, s, i);
    Flip(cmp, s[i], t[i]);
  }
}