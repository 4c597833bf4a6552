// How many entries a B-tree of a given height holds.
module BTreeShape {
  import opened BTree
  import opened BTreeStore
  import opened SortedEntries

  ghost function Power(b: nat, n: nat): (r: nat)
    ensures b >= 1 ==> r >= 1
  {
    if n == 0 then 1 else b * Power(b, n - 1)
  }

  lemma PowerNext(b: nat, n: nat)
    requires b >= 1
    ensures Power(b, n + 1) == b * Power(b, n) && Power(b, n) >= 1 == Power(b, 0)
  {}

  lemma {:induction false} WeaveAtLeast<V>(fs: seq<seq<Entry<V>>>, ps: seq<Entry<V>>, k: nat)
    requires |fs| == |ps| + 1 && forall i :: 0 <= i < |fs| ==> |fs[i]| >= k
    ensures |Weave(fs, ps)| >= |fs| * k + |ps|
  {
    if ps != [] {
      WeaveAtLeast(fs[1..], ps[1..], k);
      assert |fs| * k == |fs[1..]| * k + k;
    }
  }

  lemma {:induction false} WeaveAtMost<V>(fs: seq<seq<Entry<V>>>, ps: seq<Entry<V>>, k: nat)
    requires |fs| == |ps| + 1 && forall i :: 0 <= i < |fs| ==> |fs[i]| <= k
    ensures |Weave(fs, ps)| <= |fs| * k + |ps|
  {
    if ps != [] {
      WeaveAtMost(fs[1..], ps[1..], k);
      assert |fs| * k == |fs[1..]| * k + k;
    }
  }

  /** One level more, of at least `m` or at most `m` entries a node. */
  lemma Fanout(n: nat, m: nat, power: nat)
    requires power >= 1
    ensures m <= n ==> (n + 1) * (power - 1) + n >= (m + 1) * power - 1
    ensures n <= m ==> (n + 1) * (power - 1) + n <= (m + 1) * power - 1
  {
    assert (n + 1) * (power - 1) + n == (n + 1) * power - 1;
    assert (n + 1) * power == (m + 1) * power + (n - m) * power;
    if m <= n {
      assert (n - m) * power >= 0;
    }
    if n <= m {
      assert (m - n) * power >= 0;
      assert (n - m) * power == -((m - n) * power);
    }
  }

  lemma KidsBelow<V>(s: Store<V>, lvl: map<nat, nat>, par: map<nat, nat>, root: nat, height: nat, p: nat, i: nat)
    requires Tree(s, lvl, par, root, height) && p in lvl && p in s && i < |s[p].kids|
    ensures s[p].kids[i] in lvl && lvl[s[p].kids[i]] + 1 == lvl[p] && s[p].kids[i] != root
  {
    assert NodeOk(s, lvl, par, p);
  }

  lemma FlatOf<V>(s: Store<V>, lvl: map<nat, nat>, par: map<nat, nat>, root: nat, height: nat, p: nat)
    requires Tree(s, lvl, par, root, height) && p in lvl
    ensures p != 0 && p in s && lvl[p] >= 1
    ensures lvl[p] == 1 ==> Flat(s, p, 1) == s[p].items
    ensures lvl[p] > 1 ==> |s[p].kids| == |s[p].items| + 1
    ensures lvl[p] > 1 ==> Flat(s, p, lvl[p]) == Weave(KidFlats(s, s[p].kids, lvl[p] - 1), s[p].items)
  {
    assert NodeOk(s, lvl, par, p);
  }

  lemma {:induction false} SubtreeSize<V>(s: Store<V>, lvl: map<nat, nat>, par: map<nat, nat>, root: nat, height: nat,
                                          max: nat, p: nat)
    requires Tree(s, lvl, par, root, height) && Sizes(s, lvl, root, height, max, 0) && p in lvl && p != root
    ensures Power(max / 2 + 1, lvl[p]) - 1 <= |Flat(s, p, lvl[p])| <= Power(max + 1, lvl[p]) - 1
    decreases lvl[p]
  {
    hide Tree, Flat, Weave, Power;
    FlatOf(s, lvl, par, root, height, p);
    var h, n := lvl[p] - 1, |s[p].items|;
    PowerNext(max / 2 + 1, h);
    PowerNext(max + 1, h);
    assert max / 2 <= n <= max;
    if h > 0 {
      var fs := KidFlats(s, s[p].kids, h);
      forall i | 0 <= i < |fs| ensures Power(max / 2 + 1, h) - 1 <= |fs[i]| <= Power(max + 1, h) - 1 {
        KidsBelow(s, lvl, par, root, height, p, i);
        SubtreeSize(s, lvl, par, root, height, max, s[p].kids[i]);
      }
      WeaveAtLeast(fs, s[p].items, Power(max / 2 + 1, h) - 1);
      WeaveAtMost(fs, s[p].items, Power(max + 1, h) - 1);
    }
    Fanout(n, max / 2, Power(max / 2 + 1, h));
    Fanout(n, max, Power(max + 1, h));
  }

  /** A tree of many entries is low, and one of few entries is not high: below
      its root every node has between half and all of the entries it has room for,
      and all leaves are equally deep. */
  lemma HeightBounds<V>(tree: BTree<V>)
    requires tree.Valid()
    ensures tree.height >= 1 && tree.count <= Power(tree.max + 1, tree.height) - 1
    ensures tree.count > 0 ==> tree.count >= 2 * Power(tree.max / 2 + 1, tree.height - 1) - 1
  {
    hide Tree, Flat, Weave, Power, Sorted;
    var s, lvl, par, root, height, max := tree.store, tree.lvl, tree.par, tree.root, tree.height, tree.max;
    RootLevel(s, lvl, par, root, height);
    FlatOf(s, lvl, par, root, height, root);
    var h, n := height - 1, |s[root].items|;
    PowerNext(max / 2 + 1, h);
    PowerNext(max + 1, h);
    if h > 0 {
      var fs := KidFlats(s, s[root].kids, h);
      forall i | 0 <= i < |fs| ensures Power(max / 2 + 1, h) - 1 <= |fs[i]| <= Power(max + 1, h) - 1 {
        KidsBelow(s, lvl, par, root, height, root, i);
        SubtreeSize(s, lvl, par, root, height, max, s[root].kids[i]);
      }
      WeaveAtLeast(fs, s[root].items, Power(max / 2 + 1, h) - 1);
      WeaveAtMost(fs, s[root].items, Power(max + 1, h) - 1);
      Fanout(n, 1, Power(max / 2 + 1, h));
    }
    Fanout(n, max, Power(max + 1, h));
  }

  lemma RootLevel<V>(s: Store<V>, lvl: map<nat, nat>, par: map<nat, nat>, root: nat, height: nat)
    requires Tree(s, lvl, par, root, height)
    ensures root in lvl && lvl[root] == height
  {}
}
