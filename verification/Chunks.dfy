// A sequence cut into chunks: splicing chunks, and how full they are kept.
module Chunks {
  ghost function Flat<T>(cs: seq<seq<T>>): seq<T> {
    if cs == [] then [] else cs[0] + Flat(cs[1..])
  }

  /** Where chunk `k` starts. */
  ghost function Offset<T>(cs: seq<seq<T>>, k: nat): nat
    requires k <= |cs|
  {
    |Flat(cs[..k])|
  }

  function InsertAt<T>(s: seq<T>, p: nat, e: T): seq<T>
    requires p <= |s|
  {
    s[..p] + [e] + s[p..]
  }

  function RemoveAt<T>(s: seq<T>, p: nat): seq<T>
    requires p < |s|
  {
    s[..p] + s[p + 1..]
  }

  lemma {:induction false} FlatSplit<T>(cs: seq<seq<T>>, k: nat)
    requires k <= |cs|
    ensures Flat(cs) == Flat(cs[..k]) + Flat(cs[k..])
    decreases k
  {
    if k > 0 {
      FlatSplit(cs[1..], k - 1);
      assert cs[..k][1..] == cs[1..][..k - 1] && cs[k..] == cs[1..][k - 1..];
    }
  }

  lemma FlatJoin<T>(a: seq<seq<T>>, b: seq<seq<T>>)
    ensures Flat(a + b) == Flat(a) + Flat(b)
  {
    FlatSplit(a + b, |a|);
    assert (a + b)[..|a|] == a && (a + b)[|a|..] == b;
  }

  lemma FlatOne<T>(c: seq<T>)
    ensures Flat([c]) == c
  {
    assert Flat([c]) == c + Flat([]);
  }

  lemma FlatTwo<T>(c: seq<T>, d: seq<T>)
    ensures Flat([c, d]) == c + d
  {
    FlatJoin([c], [d]);
    FlatOne(c);
    FlatOne(d);
    assert [c] + [d] == [c, d];
  }

  lemma OffsetNext<T>(cs: seq<seq<T>>, k: nat)
    requires k < |cs|
    ensures Offset(cs, k + 1) == Offset(cs, k) + |cs[k]|
    ensures Offset(cs, 0) == 0 && Offset(cs, |cs|) == |Flat(cs)|
    ensures Offset(cs, k + 1) <= |Flat(cs)|
  {
    assert cs[..k + 1] == cs[..k] + [cs[k]] && cs[..|cs|] == cs;
    FlatJoin(cs[..k], [cs[k]]);
    FlatOne(cs[k]);
    FlatSplit(cs, k + 1);
  }

  /** An element of the whole, found in its chunk. */
  lemma FlatAt<T>(cs: seq<seq<T>>, k: nat, i: nat)
    requires k < |cs| && i < |cs[k]|
    ensures Offset(cs, k) + i < |Flat(cs)| && Flat(cs)[Offset(cs, k) + i] == cs[k][i]
  {
    FlatSplit(cs, k);
    assert Flat(cs[k..]) == cs[k] + Flat(cs[k..][1..]);
  }

  /** Chunks `i` to `j` replaced by `ds`. */
  ghost function Splice<T>(cs: seq<seq<T>>, i: nat, j: nat, ds: seq<seq<T>>): seq<seq<T>>
    requires i <= j <= |cs|
  {
    cs[..i] + ds + cs[j..]
  }

  lemma FlatSplice<T>(cs: seq<seq<T>>, i: nat, j: nat, ds: seq<seq<T>>)
    requires i <= j <= |cs|
    ensures Flat(Splice(cs, i, j, ds)) == Flat(cs[..i]) + Flat(ds) + Flat(cs[j..])
    ensures Flat(cs) == Flat(cs[..i]) + Flat(cs[i..j]) + Flat(cs[j..])
  {
    hide Flat;
    FlatJoin(cs[..i] + ds, cs[j..]);
    FlatJoin(cs[..i], ds);
    FlatJoin(cs[..i] + cs[i..j], cs[j..]);
    FlatJoin(cs[..i], cs[i..j]);
    assert cs[..i] + cs[i..j] + cs[j..] == cs;
  }

  /** Inserting into the part replaced is inserting into the whole. */
  lemma SpliceInserts<T>(cs: seq<seq<T>>, i: nat, j: nat, ds: seq<seq<T>>, p: nat, e: T)
    requires i <= j <= |cs| && Offset(cs, i) <= p <= Offset(cs, i) + |Flat(cs[i..j])|
    requires Flat(ds) == InsertAt(Flat(cs[i..j]), p - Offset(cs, i), e)
    ensures p <= |Flat(cs)| && Flat(Splice(cs, i, j, ds)) == InsertAt(Flat(cs), p, e)
  {
    FlatSplice(cs, i, j, ds);
    InsertBetween(Flat(cs[..i]), Flat(cs[i..j]), Flat(cs[j..]), p, e);
  }

  lemma InsertBetween<T>(a: seq<T>, b: seq<T>, c: seq<T>, p: nat, e: T)
    requires |a| <= p <= |a| + |b|
    ensures InsertAt(a + b + c, p, e) == a + InsertAt(b, p - |a|, e) + c
  {
    assert (a + b + c)[..p] == a + b[..p - |a|];
    assert (a + b + c)[p..] == b[p - |a|..] + c;
  }

  lemma SpliceRemoves<T>(cs: seq<seq<T>>, i: nat, j: nat, ds: seq<seq<T>>, p: nat)
    requires i <= j <= |cs| && Offset(cs, i) <= p < Offset(cs, i) + |Flat(cs[i..j])|
    requires Flat(ds) == RemoveAt(Flat(cs[i..j]), p - Offset(cs, i))
    ensures p < |Flat(cs)| && Flat(Splice(cs, i, j, ds)) == RemoveAt(Flat(cs), p)
  {
    FlatSplice(cs, i, j, ds);
    RemoveBetween(Flat(cs[..i]), Flat(cs[i..j]), Flat(cs[j..]), p);
  }

  lemma RemoveBetween<T>(a: seq<T>, b: seq<T>, c: seq<T>, p: nat)
    requires |a| <= p < |a| + |b|
    ensures RemoveAt(a + b + c, p) == a + RemoveAt(b, p - |a|) + c
  {
    assert (a + b + c)[..p] == a + b[..p - |a|];
    assert (a + b + c)[p + 1..] == b[p + 1 - |a|..] + c;
  }

  // ---- How full the chunks are

  /** No chunk is over `max`, none is empty unless it is the only one, and two
      neighbours would not fit into one with room to spare. */
  ghost predicate Balanced<T>(cs: seq<seq<T>>, max: nat) {
    && (forall k :: 0 <= k < |cs| ==> |cs[k]| <= max)
    && (|cs| > 1 ==> forall k :: 0 <= k < |cs| ==> |cs[k]| > 0)
    && (forall k :: 0 <= k < |cs| - 1 ==> |cs[k]| + |cs[k + 1]| >= max)
  }

  /** As many chunks as their elements need, or up to twice as many. */
  lemma {:induction false} FewChunks<T>(cs: seq<seq<T>>, max: nat)
    requires Balanced(cs, max)
    ensures |cs| / 2 * max <= |Flat(cs)| <= |cs| * max
    ensures |cs| > 1 ==> [] !in cs
  {
    hide Flat;
    if |cs| >= 2 {
      var rest := cs[2..];
      assert forall k :: 0 <= k < |rest| ==> rest[k] == cs[k + 2];
      FewChunks(rest, max);
      FlatSplit(cs, 2);
      FlatTwo(cs[0], cs[1]);
      assert cs[..2] == [cs[0], cs[1]];
      TwoLess(|cs|, max);
    } else if |cs| == 1 {
      FlatOne(cs[0]);
      assert cs == [cs[0]];
    } else {
      NoneFlat<T>();
    }
  }

  lemma TwoLess(n: nat, max: nat)
    requires n >= 2
    ensures (n - 2) * max == n * max - 2 * max && (n - 2) / 2 * max == n / 2 * max - max
  {
    assert (n - 2) / 2 == n / 2 - 1;
  }

  lemma NoneFlat<T>()
    ensures Flat<T>([]) == []
  {}

  /** `ds` are chunks for what `cs` hold with `e` inserted at `p`. */
  ghost predicate Inserted<T>(cs: seq<seq<T>>, ds: seq<seq<T>>, max: nat, p: nat, e: T) {
    Balanced(ds, max) && p <= |Flat(cs)| && Flat(ds) == InsertAt(Flat(cs), p, e)
  }

  /** `ds` are chunks for what `cs` hold without the element at `p`. */
  ghost predicate Removed<T>(cs: seq<seq<T>>, ds: seq<seq<T>>, max: nat, p: nat) {
    Balanced(ds, max) && p < |Flat(cs)| && Flat(ds) == RemoveAt(Flat(cs), p)
  }

  lemma Grow<T>(cs: seq<seq<T>>, max: nat, k: nat, c: seq<T>)
    requires Balanced(cs, max) && k < |cs| && |cs[k]| <= |c| <= max
    ensures Balanced(cs[k := c], max)
  {}

  /** Room in the chunk itself. */
  lemma InsertHere<T>(cs: seq<seq<T>>, max: nat, k: nat, i: nat, e: T)
    requires Balanced(cs, max) && k < |cs| && i <= |cs[k]| < max
    ensures Inserted(cs, cs[k := InsertAt(cs[k], i, e)], max, Offset(cs, k) + i, e)
  {
    var c := InsertAt(cs[k], i, e);
    Grow(cs, max, k, c);
    hide Balanced;
    assert cs[k..k + 1] == [cs[k]] && cs[k := c] == Splice(cs, k, k + 1, [c]);
    FlatOne(cs[k]);
    FlatOne(c);
    hide Flat, Splice;
    SpliceInserts(cs, k, k + 1, [c], Offset(cs, k) + i, e);
  }

  /** Two neighbours, refilled with one element more. */
  lemma InsertPair<T>(cs: seq<seq<T>>, max: nat, k: nat, i: nat, e: T, c: seq<T>, d: seq<T>)
    requires Balanced(cs, max) && k + 1 < |cs| && i <= |cs[k] + cs[k + 1]|
    requires c + d == InsertAt(cs[k] + cs[k + 1], i, e)
    requires |cs[k]| <= |c| <= max && |cs[k + 1]| <= |d| <= max
    ensures Inserted(cs, cs[k := c][k + 1 := d], max, Offset(cs, k) + i, e)
  {
    Grow(cs, max, k, c);
    Grow(cs[k := c], max, k + 1, d);
    hide Balanced;
    assert cs[k..k + 2] == [cs[k], cs[k + 1]] && cs[k := c][k + 1 := d] == Splice(cs, k, k + 2, [c, d]);
    FlatTwo(cs[k], cs[k + 1]);
    FlatTwo(c, d);
    hide Flat, Splice, InsertAt;
    SpliceInserts(cs, k, k + 2, [c, d], Offset(cs, k) + i, e);
  }

  /** A full chunk among full ones hands its last element to a new one. */
  lemma InsertSplit<T>(cs: seq<seq<T>>, max: nat, k: nat, i: nat, e: T, c: seq<T>, d: T)
    requires Balanced(cs, max) && k < |cs| && i <= |cs[k]| == |c| == max && max >= 1
    requires k + 1 < |cs| ==> |cs[k + 1]| == max
    requires c + [d] == InsertAt(cs[k], i, e)
    ensures Inserted(cs, Splice(cs, k, k + 1, [c, [d]]), max, Offset(cs, k) + i, e)
  {
    SplitBalanced(cs, max, k, c, d);
    hide Balanced;
    assert cs[k..k + 1] == [cs[k]];
    FlatOne(cs[k]);
    FlatTwo(c, [d]);
    hide Flat, Splice, InsertAt;
    SpliceInserts(cs, k, k + 1, [c, [d]], Offset(cs, k) + i, e);
  }

  lemma SplitBalanced<T>(cs: seq<seq<T>>, max: nat, k: nat, c: seq<T>, d: T)
    requires Balanced(cs, max) && k < |cs| && |cs[k]| == |c| == max && max >= 1
    requires k + 1 < |cs| ==> |cs[k + 1]| == max
    ensures Balanced(Splice(cs, k, k + 1, [c, [d]]), max)
  {
    hide Splice;
    var ds := Splice(cs, k, k + 1, [c, [d]]);
    SplitAt(cs, k, c, [d]);
    forall j | 0 <= j < |ds| ensures 0 < |ds[j]| <= max {
      if j < k {
        assert ds[j] == cs[j];
      } else if k + 1 < j {
        assert ds[j] == cs[j - 1];
      }
    }
    forall j | 0 <= j < |ds| - 1 ensures |ds[j]| + |ds[j + 1]| >= max {
      if j < k - 1 {
        assert |cs[j]| + |cs[j + 1]| >= max;
      } else if k + 1 < j {
        assert |cs[j - 1]| + |cs[j]| >= max;
      }
    }
  }

  /** One chunk turned into two. */
  lemma SplitAt<T>(cs: seq<seq<T>>, k: nat, c: seq<T>, d: seq<T>)
    requires k < |cs|
    ensures var ds := Splice(cs, k, k + 1, [c, d]);
      && |ds| == |cs| + 1 && ds[k] == c && ds[k + 1] == d
      && (forall j :: 0 <= j < k ==> ds[j] == cs[j])
      && (forall j :: k + 1 < j < |ds| ==> ds[j] == cs[j - 1])
  {}

  // ---- Removals

  /** The chunk keeps elements and fits with neither neighbour. */
  lemma RemoveHere<T>(cs: seq<seq<T>>, max: nat, k: nat, i: nat)
    requires Balanced(cs, max) && k < |cs| && i < |cs[k]| && |cs[k]| > 1
    requires k > 0 ==> |cs[k - 1]| + |cs[k]| - 1 > max
    requires k + 1 < |cs| ==> |cs[k + 1]| + |cs[k]| - 1 > max
    ensures Removed(cs, cs[k := RemoveAt(cs[k], i)], max, Offset(cs, k) + i)
  {
    hide Balanced, Flat;
    var c := RemoveAt(cs[k], i);
    ShrinkOne(cs, max, k, c);
    assert cs[k..k + 1] == [cs[k]] && cs[k := c] == Splice(cs, k, k + 1, [c]);
    FlatOne(cs[k]);
    FlatOne(c);
    SpliceRemoves(cs, k, k + 1, [c], Offset(cs, k) + i);
  }

  lemma ShrinkOne<T>(cs: seq<seq<T>>, max: nat, k: nat, c: seq<T>)
    requires Balanced(cs, max) && k < |cs| && |c| == |cs[k]| - 1 > 0
    requires k > 0 ==> |cs[k - 1]| + |c| >= max
    requires k + 1 < |cs| ==> |c| + |cs[k + 1]| >= max
    ensures Balanced(cs[k := c], max)
  {}

  /** Some chunks turned into one or none: the others stay as they are. */
  lemma SpliceShorter<T>(cs: seq<seq<T>>, i: nat, j: nat, ds: seq<seq<T>>)
    requires i <= j <= |cs| && |ds| <= 1
    ensures var t := Splice(cs, i, j, ds);
      && |t| == |cs| - (j - i) + |ds| && (ds != [] ==> t[i] == ds[0])
      && (forall k :: 0 <= k < i ==> t[k] == cs[k])
      && (forall k :: i + |ds| <= k < |t| ==> t[k] == cs[k + (j - i) - |ds|])
  {}

  lemma DropBalanced<T>(cs: seq<seq<T>>, max: nat, k: nat)
    requires Balanced(cs, max) && k < |cs| && |cs[k]| == 1
    ensures Balanced(Splice(cs, k, k + 1, []), max)
  {
    hide Splice;
    var ds := Splice(cs, k, k + 1, []);
    SpliceShorter(cs, k, k + 1, []);
    forall j | 0 <= j < |ds| - 1 ensures |ds[j]| + |ds[j + 1]| >= max {
      if j < k - 1 {
        assert |cs[j]| + |cs[j + 1]| >= max;
      } else if j == k - 1 {
        assert |cs[j]| + |cs[k]| >= max && |cs[k]| + |cs[k + 1]| >= max;
      } else {
        assert |cs[j + 1]| + |cs[j + 2]| >= max;
      }
    }
  }

  lemma MergeBalanced<T>(cs: seq<seq<T>>, max: nat, k: nat, c: seq<T>)
    requires Balanced(cs, max) && k + 1 < |cs| && |c| == |cs[k]| + |cs[k + 1]| - 1 <= max
    ensures Balanced(Splice(cs, k, k + 2, [c]), max)
  {
    hide Splice;
    var ds := Splice(cs, k, k + 2, [c]);
    SpliceShorter(cs, k, k + 2, [c]);
    forall j | 0 <= j < |ds| - 1 ensures |ds[j]| + |ds[j + 1]| >= max {
      if j < k {
        assert |cs[j]| + |cs[j + 1]| >= max;
      } else {
        assert |cs[j + 1]| + |cs[j + 2]| >= max;
      }
    }
  }

  /** The chunk is left empty and goes. */
  lemma RemoveLast<T>(cs: seq<seq<T>>, max: nat, k: nat)
    requires Balanced(cs, max) && k < |cs| && |cs[k]| == 1
    ensures Removed(cs, Splice(cs, k, k + 1, []), max, Offset(cs, k))
  {
    hide Balanced, Splice;
    DropBalanced(cs, max, k);
    assert cs[k..k + 1] == [cs[k]];
    FlatOne(cs[k]);
    SpliceRemoves(cs, k, k + 1, [], Offset(cs, k));
  }

  /** Two neighbours that fit into one once element `i` of them is gone. */
  lemma RemoveMerge<T>(cs: seq<seq<T>>, max: nat, k: nat, i: nat)
    requires Balanced(cs, max) && k + 1 < |cs| && i < |cs[k] + cs[k + 1]| <= max + 1
    requires if i < |cs[k]| then |cs[k]| > 1 else |cs[k + 1]| > 1
    ensures Removed(cs, Splice(cs, k, k + 2, [RemoveAt(cs[k] + cs[k + 1], i)]), max, Offset(cs, k) + i)
  {
    hide Offset, Flat, Balanced, Splice;
    var c := RemoveAt(cs[k] + cs[k + 1], i);
    MergeBalanced(cs, max, k, c);
    assert cs[k..k + 2] == [cs[k], cs[k + 1]];
    FlatTwo(cs[k], cs[k + 1]);
    FlatOne(c);
    SpliceRemoves(cs, k, k + 2, [c], Offset(cs, k) + i);
  }
}
