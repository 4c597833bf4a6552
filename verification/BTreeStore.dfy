// B-tree nodes linked by page number, the sequence of entries a subtree stands
// for, and the lemmas that let one node be rewritten at a time.
module BTreeStore {
  import opened SortedEntries
  import opened PageNumbers

  /** `kids` is empty in a leaf, where the source keeps a null pointer. */
  datatype Node<V> = Node(items: seq<Entry<V>>, kids: seq<nat>)

  type Store<V> = map<nat, Node<V>>

  /** The in-order entries of the subtree of height `h` at page `p`. */
  ghost function Flat<V>(s: Store<V>, p: nat, h: nat): seq<Entry<V>>
    decreases h, 0
  {
    if p !in s || h == 0 then [] else NodeFlat(s, s[p].items, s[p].kids, h)
  }

  ghost function NodeFlat<V>(s: Store<V>, items: seq<Entry<V>>, kids: seq<nat>, h: nat): seq<Entry<V>>
    requires h > 0
    decreases h - 1, 2
  {
    if h == 1 then items
    else if |kids| != |items| + 1 then []
    else Weave(KidFlats(s, kids, h - 1), items)
  }

  ghost function KidFlats<V>(s: Store<V>, kids: seq<nat>, h: nat): (r: seq<seq<Entry<V>>>)
    ensures |r| == |kids|
    ensures forall i :: 0 <= i < |r| ==> r[i] == Flat(s, kids[i], h)
    decreases h, 1
  {
    seq(|kids|, i requires 0 <= i < |kids| => Flat(s, kids[i], h))
  }

  /** Levels count from 1 at the leaves; `par` names the only parent of a page. */
  ghost predicate Tree<V>(s: Store<V>, lvl: map<nat, nat>, par: map<nat, nat>, root: nat, height: nat) {
    && root in lvl && lvl[root] == height
    && (forall p :: p in lvl ==> NodeOk(s, lvl, par, p))
    && (forall p :: p in lvl ==> 1 <= lvl[p] <= height)
  }

  ghost predicate NodeOk<V>(s: Store<V>, lvl: map<nat, nat>, par: map<nat, nat>, p: nat)
    requires p in lvl
  {
    && p != 0 && p in s
    && (lvl[p] == 1 ==> s[p].kids == [])
    && (lvl[p] > 1 ==> |s[p].kids| == |s[p].items| + 1)
    && Distinct(s[p].kids)
    && KidsOk(lvl, par, p, s[p].kids)
  }

  ghost predicate KidsOk(lvl: map<nat, nat>, par: map<nat, nat>, p: nat, kids: seq<nat>)
    requires p in lvl
  {
    forall i :: 0 <= i < |kids| ==>
      kids[i] in lvl && kids[i] in par && lvl[kids[i]] + 1 == lvl[p] && par[kids[i]] == p
  }

  /** Every node but the root and `exc` is at least half full; `exc` may be one
      below the minimum or one above the maximum. */
  ghost predicate Sizes<V>(s: Store<V>, lvl: map<nat, nat>, root: nat, height: nat, max: nat, exc: nat) {
    forall p :: p in lvl && p != exc ==> p in s && SizeOk(|s[p].items|, p == root, height, max)
  }

  ghost predicate SizeOk(size: nat, isRoot: bool, height: nat, max: nat) {
    size <= max && (if isRoot then height > 1 ==> size >= 1 else size >= max / 2)
  }

  // ---- Frames

  /** If level `m` spells the same entries and nothing above it changed, no
      subtree above it changes what it spells. */
  lemma {:induction false} FlatSame<V>(s: Store<V>, t: Store<V>, lvl: map<nat, nat>, par: map<nat, nat>, m: nat, p: nat)
    requires p in lvl && m <= lvl[p] && 1 <= m
    requires forall q :: q in lvl ==> NodeOk(s, lvl, par, q)
    requires forall q :: q in lvl && lvl[q] == m ==> Flat(s, q, m) == Flat(t, q, m)
    requires forall q :: q in lvl && m < lvl[q] <= lvl[p] ==> q in s && q in t && t[q] == s[q]
    ensures Flat(s, p, lvl[p]) == Flat(t, p, lvl[p])
    decreases lvl[p]
  {
    if lvl[p] > m {
      assert NodeOk(s, lvl, par, p);
      var kids := s[p].kids;
      forall i | 0 <= i < |kids| ensures Flat(s, kids[i], lvl[p] - 1) == Flat(t, kids[i], lvl[p] - 1) {
        assert kids[i] in lvl && lvl[kids[i]] == lvl[p] - 1;
        FlatSame(s, t, lvl, par, m, kids[i]);
      }
      assert KidFlats(s, kids, lvl[p] - 1) == KidFlats(t, kids, lvl[p] - 1);
    }
  }

  /** A subtree below every rewritten node spells what it spelt. */
  lemma {:induction false} FlatUntouched<V>(s: Store<V>, t: Store<V>, lvl: map<nat, nat>, par: map<nat, nat>, p: nat)
    requires p in lvl && 1 <= lvl[p]
    requires forall q :: q in lvl ==> NodeOk(s, lvl, par, q)
    requires forall q :: q in lvl && lvl[q] <= lvl[p] ==> q in s && q in t && t[q] == s[q]
    ensures Flat(s, p, lvl[p]) == Flat(t, p, lvl[p])
  {
    forall q | q in lvl && lvl[q] == 1 ensures Flat(s, q, 1) == Flat(t, q, 1) {
      assert NodeOk(s, lvl, par, q);
    }
    FlatSame(s, t, lvl, par, 1, p);
  }

  /** Rewriting a node `z` and its children without changing what `z` spells
      leaves what the whole tree spells alone. */
  lemma LocalChange<V>(s: Store<V>, t: Store<V>, lvl: map<nat, nat>, par: map<nat, nat>,
                       root: nat, height: nat, z: nat)
    requires Tree(s, lvl, par, root, height)
    requires z in lvl
    requires forall q :: q in lvl && q != z && q !in s[z].kids ==> q in t && t[q] == s[q]
    requires Flat(s, z, lvl[z]) == Flat(t, z, lvl[z])
    ensures Flat(s, root, height) == Flat(t, root, height)
  {
    var m := lvl[z];
    forall q | q in lvl && lvl[q] == m ensures Flat(s, q, m) == Flat(t, q, m) {
      if q != z {
        OtherNodeSame(s, t, lvl, par, z, q);
      }
    }
    FlatSame(s, t, lvl, par, m, root);
  }

  /** A child of a node beside `z`. */
  lemma OtherKidSame<V>(s: Store<V>, t: Store<V>, lvl: map<nat, nat>, par: map<nat, nat>, z: nat, q: nat, i: nat)
    requires z in lvl && q in lvl && q != z && lvl[q] == lvl[z] && lvl[z] >= 2
    requires forall p :: p in lvl ==> NodeOk(s, lvl, par, p)
    requires z in s && forall p :: p in lvl && p != z && p !in s[z].kids ==> p in s && p in t && t[p] == s[p]
    requires q in s && i < |s[q].kids|
    ensures Flat(s, s[q].kids[i], lvl[q] - 1) == Flat(t, s[q].kids[i], lvl[q] - 1)
  {
    var c, m := s[q].kids[i], lvl[q] - 1;
    assert NodeOk(s, lvl, par, q) && NodeOk(s, lvl, par, z) && NodeOk(s, lvl, par, c) && par[c] == q;
    assert forall p :: p in s[z].kids ==> p in lvl && lvl[p] + 1 == lvl[z] && p in par && par[p] == z;
    assert t[c] == s[c];
    if m > 1 {
      forall j | 0 <= j < |s[c].kids| ensures Flat(s, s[c].kids[j], m - 1) == Flat(t, s[c].kids[j], m - 1) {
        FlatUntouched(s, t, lvl, par, s[c].kids[j]);
      }
      assert KidFlats(s, s[c].kids, m - 1) == KidFlats(t, s[c].kids, m - 1);
    }
  }

  lemma OtherNodeSame<V>(s: Store<V>, t: Store<V>, lvl: map<nat, nat>, par: map<nat, nat>, z: nat, q: nat)
    requires z in lvl && q in lvl && q != z && lvl[q] == lvl[z] && lvl[z] >= 1
    requires forall p :: p in lvl ==> NodeOk(s, lvl, par, p)
    requires z in s && forall p :: p in lvl && p != z && p !in s[z].kids ==> p in s && p in t && t[p] == s[p]
    ensures Flat(s, q, lvl[q]) == Flat(t, q, lvl[q])
  {
    var m := lvl[q];
    assert NodeOk(s, lvl, par, q) && NodeOk(s, lvl, par, z);
    assert forall p :: p in s[z].kids ==> p in lvl && lvl[p] + 1 == lvl[z] && p in par && par[p] == z;
    assert t[q] == s[q];
    if m > 1 {
      var kids := s[q].kids;
      forall i | 0 <= i < |kids| ensures Flat(s, kids[i], m - 1) == Flat(t, kids[i], m - 1) {
        OtherKidSame(s, t, lvl, par, z, q, i);
      }
      assert KidFlats(s, kids, m - 1) == KidFlats(t, kids, m - 1);
    }
  }

  // ---- Cutting and joining nodes

  ghost function Front(kids: seq<nat>, n: nat): seq<nat> {
    if n <= |kids| then kids[..n] else kids
  }

  ghost function Back(kids: seq<nat>, n: nat): seq<nat> {
    if n <= |kids| then kids[n..] else []
  }

  /** What a node spells, cut at its entry `m`. */
  lemma NodeCut<V>(s: Store<V>, items: seq<Entry<V>>, kids: seq<nat>, h: nat, m: nat)
    requires h >= 1 && m < |items| && (if h == 1 then kids == [] else |kids| == |items| + 1)
    ensures NodeFlat(s, items, kids, h)
         == NodeFlat(s, items[..m], Front(kids, m + 1), h) + [items[m]]
            + NodeFlat(s, items[m + 1..], Back(kids, m + 1), h)
  {
    if h == 1 {
      assert items == items[..m] + [items[m]] + items[m + 1..];
    } else {
      var fs := KidFlats(s, kids, h - 1);
      WeaveCut(fs, items, m);
      assert fs[..m + 1] == KidFlats(s, kids[..m + 1], h - 1);
      assert fs[m + 1..] == KidFlats(s, kids[m + 1..], h - 1);
    }
  }

  lemma NodeFlatUntouched<V>(s: Store<V>, t: Store<V>, lvl: map<nat, nat>, par: map<nat, nat>,
                             items: seq<Entry<V>>, kids: seq<nat>, h: nat)
    requires h >= 1
    requires forall q :: q in lvl ==> NodeOk(s, lvl, par, q)
    requires forall q :: q in lvl && lvl[q] < h ==> q in s && q in t && t[q] == s[q]
    requires forall i :: 0 <= i < |kids| ==> kids[i] in lvl && 1 <= lvl[kids[i]] == h - 1
    ensures NodeFlat(s, items, kids, h) == NodeFlat(t, items, kids, h)
  {
    if h > 1 {
      forall i | 0 <= i < |kids| ensures Flat(s, kids[i], h - 1) == Flat(t, kids[i], h - 1) {
        FlatUntouched(s, t, lvl, par, kids[i]);
      }
      assert KidFlats(s, kids, h - 1) == KidFlats(t, kids, h - 1);
    }
  }

  /** `par` once page `p` is the parent of `kids`. */
  ghost function Adopt(par: map<nat, nat>, kids: seq<nat>, p: nat): (r: map<nat, nat>)
    ensures forall q :: q in kids ==> q in r && r[q] == p
    ensures forall q :: q in par && q !in kids ==> q in r && r[q] == par[q]
  {
    par + map q | q in kids :: p
  }

  /** The store in which child `x` of `z`, holding `items` and `kids`, is cut at
      entry `m`: the tail moves to page `y`, the entry moves up to position
      `pos` of `z`. */
  ghost function SplitStore<V>(s: Store<V>, z: nat, pos: nat, x: nat, y: nat, m: nat): Store<V>
    requires z in s && x in s && m < |s[x].items| && pos <= |s[z].items| && pos < |s[z].kids|
  {
    var n := s[x];
    var up := s[z];
    s[x := Node(n.items[..m], Front(n.kids, m + 1))]
     [y := Node(n.items[m + 1..], Back(n.kids, m + 1))]
     [z := Node(up.items[..pos] + [n.items[m]] + up.items[pos..],
                up.kids[..pos + 1] + [y] + up.kids[pos + 1..])]
  }

  lemma SplitKeepsOther<V>(s: Store<V>, lvl: map<nat, nat>, par: map<nat, nat>, root: nat, height: nat,
                           z: nat, pos: nat, x: nat, y: nat, m: nat, p: nat)
    requires Tree(s, lvl, par, root, height)
    requires z in lvl && lvl[z] > 1 && pos < |s[z].kids| && s[z].kids[pos] == x
    requires m < |s[x].items| && y !in lvl && y != 0
    requires p in lvl && p != x && p != z
    ensures NodeOk(SplitStore(s, z, pos, x, y, m), lvl[y := lvl[x]],
                   Adopt(par, Back(s[x].kids, m + 1), y)[y := z], p)
  {
    assert NodeOk(s, lvl, par, z) && NodeOk(s, lvl, par, x) && NodeOk(s, lvl, par, p);
    forall a | 0 <= a < |s[p].kids| ensures s[p].kids[a] !in s[x].kids && s[p].kids[a] != y {
      assert par[s[p].kids[a]] == p;
    }
  }

  lemma InsertedKid(lvl: map<nat, nat>, par: map<nat, nat>, lvl': map<nat, nat>, par': map<nat, nat>,
                    z: nat, kids: seq<nat>, pos: nat, y: nat)
    requires z in lvl && z in lvl' && lvl'[z] == lvl[z] && pos < |kids| && y !in lvl
    requires KidsOk(lvl, par, z, kids) && Distinct(kids)
    requires KidsOk(lvl', par', z, kids) && KidsOk(lvl', par', z, [y])
    ensures var k := kids[..pos + 1] + [y] + kids[pos + 1..];
      Distinct(k) && KidsOk(lvl', par', z, k)
  {
    assert [y][0] == y;
    assert forall q :: q in kids ==> q != y;
  }

  /** Some of the children of `x`, now under a node `y` of the same level. */
  lemma MovedKids(lvl: map<nat, nat>, par: map<nat, nat>, x: nat, kids: seq<nat>,
                  lvl': map<nat, nat>, par': map<nat, nat>, y: nat, moved: seq<nat>)
    requires x in lvl && KidsOk(lvl, par, x, kids) && y in lvl' && lvl'[y] == lvl[x]
    requires forall q :: q in moved ==>
      q in kids && q in lvl && q in lvl' && lvl'[q] == lvl[q] && q in par' && par'[q] == y
    ensures KidsOk(lvl', par', y, moved)
  {
    forall i | 0 <= i < |moved| ensures moved[i] in lvl' && lvl'[moved[i]] + 1 == lvl'[y] {
      assert moved[i] in kids;
    }
  }

  lemma CutKids(kids: seq<nat>, n: nat)
    requires Distinct(kids)
    ensures Distinct(Front(kids, n)) && Distinct(Back(kids, n))
    ensures forall q :: q in Front(kids, n) ==> q in kids && q !in Back(kids, n)
    ensures forall q :: q in Back(kids, n) ==> q in kids
    ensures kids == [] ==> Front(kids, n) == Back(kids, n) == []
    ensures n <= |kids| ==> |Front(kids, n)| == n && |Back(kids, n)| == |kids| - n
  {}

  lemma SplitKeepsLeft<V>(s: Store<V>, lvl: map<nat, nat>, par: map<nat, nat>, root: nat, height: nat,
                          z: nat, pos: nat, x: nat, y: nat, m: nat)
    requires Tree(s, lvl, par, root, height)
    requires z in lvl && lvl[z] > 1 && pos < |s[z].kids| && s[z].kids[pos] == x
    requires m < |s[x].items| && y !in lvl && y != 0
    ensures NodeOk(SplitStore(s, z, pos, x, y, m), lvl[y := lvl[x]],
                   Adopt(par, Back(s[x].kids, m + 1), y)[y := z], x)
  {
    hide Adopt, Front, Back, Distinct;
    assert NodeOk(s, lvl, par, z) && NodeOk(s, lvl, par, x);
    CutKids(s[x].kids, m + 1);
    assert forall q :: q in s[x].kids ==> q in lvl && q in par && lvl[q] + 1 == lvl[x] && par[q] == x;
    var t, lvl', par' := SplitStore(s, z, pos, x, y, m), lvl[y := lvl[x]],
      Adopt(par, Back(s[x].kids, m + 1), y)[y := z];
    assert x in t && t[x] == Node(s[x].items[..m], Front(s[x].kids, m + 1));
    MovedKids(lvl, par, x, s[x].kids, lvl', par', x, t[x].kids);
  }

  lemma SplitKeepsRight<V>(s: Store<V>, lvl: map<nat, nat>, par: map<nat, nat>, root: nat, height: nat,
                           z: nat, pos: nat, x: nat, y: nat, m: nat)
    requires Tree(s, lvl, par, root, height)
    requires z in lvl && lvl[z] > 1 && pos < |s[z].kids| && s[z].kids[pos] == x
    requires m < |s[x].items| && y !in lvl && y != 0
    ensures NodeOk(SplitStore(s, z, pos, x, y, m), lvl[y := lvl[x]],
                   Adopt(par, Back(s[x].kids, m + 1), y)[y := z], y)
  {
    hide Adopt, Front, Back, Distinct;
    assert NodeOk(s, lvl, par, z) && NodeOk(s, lvl, par, x);
    CutKids(s[x].kids, m + 1);
    assert forall q :: q in s[x].kids ==> q in lvl && q in par && lvl[q] + 1 == lvl[x] && par[q] == x;
    var t, lvl', par' := SplitStore(s, z, pos, x, y, m), lvl[y := lvl[x]],
      Adopt(par, Back(s[x].kids, m + 1), y)[y := z];
    assert y in t && t[y] == Node(s[x].items[m + 1..], Back(s[x].kids, m + 1));
    MovedKids(lvl, par, x, s[x].kids, lvl', par', y, t[y].kids);
  }

  lemma SplitKeepsParent<V>(s: Store<V>, lvl: map<nat, nat>, par: map<nat, nat>, root: nat, height: nat,
                            z: nat, pos: nat, x: nat, y: nat, m: nat)
    requires Tree(s, lvl, par, root, height)
    requires z in lvl && lvl[z] > 1 && pos < |s[z].kids| && s[z].kids[pos] == x
    requires m < |s[x].items| && y !in lvl && y != 0
    ensures NodeOk(SplitStore(s, z, pos, x, y, m), lvl[y := lvl[x]],
                   Adopt(par, Back(s[x].kids, m + 1), y)[y := z], z)
  {
    assert NodeOk(s, lvl, par, z) && NodeOk(s, lvl, par, x);
    var lvl', par' := lvl[y := lvl[x]], Adopt(par, Back(s[x].kids, m + 1), y)[y := z];
    KidsStay(lvl, par, z, s[z].kids, x, s[x].kids, y, m + 1);
    hide Tree, Adopt, Front, Back;
    InsertedKid(lvl, par, lvl', par', z, s[z].kids, pos, y);
  }

  /** Children of `z` are not among those that move from `x` to `y`. */
  lemma KidsStay(lvl: map<nat, nat>, par: map<nat, nat>, z: nat, zk: seq<nat>, x: nat, xk: seq<nat>, y: nat, m: nat)
    requires z in lvl && x in lvl && lvl[x] + 1 == lvl[z] && y !in lvl && y != z && Distinct(xk)
    requires KidsOk(lvl, par, z, zk) && KidsOk(lvl, par, x, xk)
    ensures var lvl', par' := lvl[y := lvl[x]], Adopt(par, Back(xk, m), y)[y := z];
      KidsOk(lvl', par', z, zk) && KidsOk(lvl', par', z, [y])
  {
    CutKids(xk, m);
    assert forall q :: q in xk ==> q in lvl && lvl[q] + 1 == lvl[x];
    assert forall q :: q in zk ==> q in lvl && lvl[q] == lvl[x] && q !in xk && q in par && par[q] == z;
  }

  lemma SplitKeepsTree<V>(s: Store<V>, lvl: map<nat, nat>, par: map<nat, nat>, root: nat, height: nat,
                          z: nat, pos: nat, x: nat, y: nat, m: nat)
    requires Tree(s, lvl, par, root, height)
    requires z in lvl && lvl[z] > 1 && pos < |s[z].kids| && s[z].kids[pos] == x
    requires m < |s[x].items| && y !in lvl && y != 0
    ensures Tree(SplitStore(s, z, pos, x, y, m), lvl[y := lvl[x]],
                 Adopt(par, Back(s[x].kids, m + 1), y)[y := z], root, height)
  {
    assert NodeOk(s, lvl, par, z) && NodeOk(s, lvl, par, x);
    var lvl' := lvl[y := lvl[x]];
    SplitKeepsLeft(s, lvl, par, root, height, z, pos, x, y, m);
    SplitKeepsRight(s, lvl, par, root, height, z, pos, x, y, m);
    SplitKeepsParent(s, lvl, par, root, height, z, pos, x, y, m);
    forall p | p in lvl'
      ensures NodeOk(SplitStore(s, z, pos, x, y, m), lvl', Adopt(par, Back(s[x].kids, m + 1), y)[y := z], p)
    {
      if p != x && p != y && p != z {
        SplitKeepsOther(s, lvl, par, root, height, z, pos, x, y, m, p);
      }
    }
  }

  /** In `t` the child `x` of `s` is two children around `sep`. */
  lemma TwoForOne<V>(s: Store<V>, t: Store<V>, z: nat, pos: nat, x: nat, y: nat, sep: Entry<V>, h: nat)
    requires h >= 1 && z in s && z in t && |s[z].kids| == |s[z].items| + 1
    requires pos < |s[z].kids| && s[z].kids[pos] == x
    requires t[z].items == s[z].items[..pos] + [sep] + s[z].items[pos..]
    requires t[z].kids == s[z].kids[..pos + 1] + [y] + s[z].kids[pos + 1..]
    requires Flat(s, x, h) == Flat(t, x, h) + [sep] + Flat(t, y, h)
    requires forall i :: 0 <= i < |s[z].kids| && i != pos ==> Flat(t, s[z].kids[i], h) == Flat(s, s[z].kids[i], h)
    ensures Flat(s, z, h + 1) == Flat(t, z, h + 1)
  {
    hide KidFlats, Weave;
    var fs := KidFlats(s, s[z].kids, h);
    WeaveExpand(fs, s[z].items, pos, Flat(t, x, h), sep, Flat(t, y, h));
    assert KidFlats(t, t[z].kids, h) == fs[..pos] + [Flat(t, x, h), Flat(t, y, h)] + fs[pos + 1..];
  }

  lemma SplitSpells<V>(s: Store<V>, lvl: map<nat, nat>, par: map<nat, nat>, root: nat, height: nat,
                       z: nat, pos: nat, x: nat, y: nat, m: nat)
    requires Tree(s, lvl, par, root, height)
    requires z in lvl && lvl[z] > 1 && pos < |s[z].kids| && s[z].kids[pos] == x
    requires m < |s[x].items| && y !in lvl && y != 0
    ensures var t := SplitStore(s, z, pos, x, y, m);
      Flat(s, x, lvl[x]) == Flat(t, x, lvl[x]) + [s[x].items[m]] + Flat(t, y, lvl[x])
  {
    hide KidFlats, NodeFlat, Weave, Distinct;
    assert NodeOk(s, lvl, par, z) && NodeOk(s, lvl, par, x);
    var t := SplitStore(s, z, pos, x, y, m);
    var h := lvl[x];
    var items, kids := s[x].items, s[x].kids;
    NodeCut(s, items, kids, h, m);
    NodeFlatUntouched(s, t, lvl, par, items[..m], Front(kids, m + 1), h);
    NodeFlatUntouched(s, t, lvl, par, items[m + 1..], Back(kids, m + 1), h);
  }

  lemma SplitKeepsFlat<V>(s: Store<V>, lvl: map<nat, nat>, par: map<nat, nat>, root: nat, height: nat,
                          z: nat, pos: nat, x: nat, y: nat, m: nat)
    requires Tree(s, lvl, par, root, height)
    requires z in lvl && lvl[z] > 1 && pos < |s[z].kids| && s[z].kids[pos] == x
    requires m < |s[x].items| && y !in lvl && y != 0
    ensures Flat(SplitStore(s, z, pos, x, y, m), root, height) == Flat(s, root, height)
  {
    hide NodeFlat, Weave, Flat, Front, Back;
    assert NodeOk(s, lvl, par, z) && NodeOk(s, lvl, par, x);
    var t := SplitStore(s, z, pos, x, y, m);
    var h := lvl[x];
    SplitSpells(s, lvl, par, root, height, z, pos, x, y, m);
    forall i | 0 <= i < |s[z].kids| && i != pos ensures Flat(t, s[z].kids[i], h) == Flat(s, s[z].kids[i], h) {
      SiblingUntouched(s, t, lvl, par, s[z].kids[i]);
    }
    TwoForOne(s, t, z, pos, x, y, s[x].items[m], h);
    LocalChange(s, t, lvl, par, root, height, z);
  }

  /** A node whose own page and whose descendants' pages were not rewritten. */
  lemma SiblingUntouched<V>(s: Store<V>, t: Store<V>, lvl: map<nat, nat>, par: map<nat, nat>, q: nat)
    requires forall p :: p in lvl ==> NodeOk(s, lvl, par, p)
    requires q in lvl && lvl[q] >= 1 && q in s && q in t && t[q] == s[q]
    requires forall p :: p in lvl && lvl[p] < lvl[q] ==> p in s && p in t && t[p] == s[p]
    ensures Flat(s, q, lvl[q]) == Flat(t, q, lvl[q])
  {
    assert NodeOk(s, lvl, par, q);
    NodeFlatUntouched(s, t, lvl, par, s[q].items, s[q].kids, lvl[q]);
  }

  // ---- Merging two neighbours, and moving entries between them

  ghost function Joined<V>(s: Store<V>, z: nat, i: nat): Node<V>
    requires z in s && i < |s[z].items| && i + 1 < |s[z].kids| && s[z].kids[i] in s && s[z].kids[i + 1] in s
  {
    var a := s[s[z].kids[i]];
    var b := s[s[z].kids[i + 1]];
    Node(a.items + [s[z].items[i]] + b.items, a.kids + b.kids)
  }

  /** The store in which children `i` and `i + 1` of `z` became one. */
  ghost function MergeStore<V>(s: Store<V>, z: nat, i: nat): Store<V>
    requires z in s && i < |s[z].items| && i + 1 < |s[z].kids| && s[z].kids[i] in s && s[z].kids[i + 1] in s
  {
    var up := s[z];
    s[up.kids[i] := Joined(s, z, i)]
     [z := Node(up.items[..i] + up.items[i + 1..], up.kids[..i + 1] + up.kids[i + 2..])]
    - {up.kids[i + 1]}
  }

  ghost predicate Neighbours<V>(s: Store<V>, lvl: map<nat, nat>, par: map<nat, nat>,
                                root: nat, height: nat, z: nat, i: nat) {
    && Tree(s, lvl, par, root, height)
    && z in lvl && lvl[z] > 1 && i + 1 < |s[z].kids| && i < |s[z].items|
    && s[z].kids[i] in s && s[z].kids[i + 1] in s
  }

  lemma NeighbourFacts<V>(s: Store<V>, lvl: map<nat, nat>, par: map<nat, nat>, root: nat, height: nat, z: nat, i: nat)
    requires Neighbours(s, lvl, par, root, height, z, i)
    ensures s[z].kids[i] in lvl && s[z].kids[i + 1] in lvl
    ensures var x, y, n := s[z].kids[i], s[z].kids[i + 1], Joined(s, z, i);
      && NodeOk(s, lvl, par, x) && NodeOk(s, lvl, par, y) && NodeOk(s, lvl, par, z)
      && x != y && x != z && y != z && lvl[x] == lvl[y] == lvl[z] - 1
      && par[x] == z && par[y] == z
      && (if lvl[x] == 1 then n.kids == [] else |n.kids| == |n.items| + 1)
      && Distinct(n.kids)
  {
    assert NodeOk(s, lvl, par, z);
    var x, y := s[z].kids[i], s[z].kids[i + 1];
    assert NodeOk(s, lvl, par, x) && NodeOk(s, lvl, par, y);
    DistinctUnion(lvl, par, x, s[x].kids, y, s[y].kids);
  }

  lemma DistinctUnion(lvl: map<nat, nat>, par: map<nat, nat>, x: nat, a: seq<nat>, y: nat, b: seq<nat>)
    requires x in lvl && y in lvl && x != y && KidsOk(lvl, par, x, a) && KidsOk(lvl, par, y, b)
    requires Distinct(a) && Distinct(b)
    ensures Distinct(a + b)
  {
    forall i, j | 0 <= i < |a| && 0 <= j < |b| ensures a[i] != b[j] {
      assert par[a[i]] == x && par[b[j]] == y;
    }
  }

  /** Two neighbours and their separator spell what the joined node spells. */
  lemma JoinedSpells<V>(s: Store<V>, lvl: map<nat, nat>, par: map<nat, nat>, root: nat, height: nat, z: nat, i: nat)
    requires Neighbours(s, lvl, par, root, height, z, i)
    ensures var x, y, n := s[z].kids[i], s[z].kids[i + 1], Joined(s, z, i);
      lvl[z] > 1 && NodeFlat(s, n.items, n.kids, lvl[z] - 1)
        == Flat(s, x, lvl[z] - 1) + [s[z].items[i]] + Flat(s, y, lvl[z] - 1)
  {
    NeighbourFacts(s, lvl, par, root, height, z, i);
    var x, y, n := s[z].kids[i], s[z].kids[i + 1], Joined(s, z, i);
    var m := |s[x].items|;
    NodeCut(s, n.items, n.kids, lvl[z] - 1, m);
    assert n.items[..m] == s[x].items && n.items[m + 1..] == s[y].items && n.items[m] == s[z].items[i];
    assert Front(n.kids, m + 1) == s[x].kids && Back(n.kids, m + 1) == s[y].kids;
  }

  lemma MergeKeepsOther<V>(s: Store<V>, lvl: map<nat, nat>, par: map<nat, nat>, root: nat, height: nat,
                           z: nat, i: nat, p: nat)
    requires Neighbours(s, lvl, par, root, height, z, i)
    requires p in lvl && p != z && p != s[z].kids[i] && p != s[z].kids[i + 1]
    ensures var x, y := s[z].kids[i], s[z].kids[i + 1];
      NodeOk(MergeStore(s, z, i), lvl - {y}, Adopt(par, s[y].kids, x), p)
  {
    NeighbourFacts(s, lvl, par, root, height, z, i);
    var y := s[z].kids[i + 1];
    assert NodeOk(s, lvl, par, p);
    forall a | 0 <= a < |s[p].kids| ensures s[p].kids[a] != y && s[p].kids[a] !in s[y].kids {
      assert par[s[p].kids[a]] == p;
    }
  }

  lemma MergeKeepsChanged<V>(s: Store<V>, lvl: map<nat, nat>, par: map<nat, nat>, root: nat, height: nat, z: nat,
                             i: nat)
    requires Neighbours(s, lvl, par, root, height, z, i)
    ensures var x, y := s[z].kids[i], s[z].kids[i + 1];
      && x in lvl - {y} && z in lvl - {y}
      && NodeOk(MergeStore(s, z, i), lvl - {y}, Adopt(par, s[y].kids, x), x)
      && NodeOk(MergeStore(s, z, i), lvl - {y}, Adopt(par, s[y].kids, x), z)
  {
    hide Tree, Adopt;
    NeighbourFacts(s, lvl, par, root, height, z, i);
    var y := s[z].kids[i + 1];
    assert forall q :: q in s[z].kids ==> q !in s[y].kids;
    assert forall q :: q in s[y].kids ==> q != y;
  }

  lemma MergeKeepsTree<V>(s: Store<V>, lvl: map<nat, nat>, par: map<nat, nat>, root: nat, height: nat, z: nat, i: nat)
    requires Neighbours(s, lvl, par, root, height, z, i)
    ensures var x, y := s[z].kids[i], s[z].kids[i + 1];
      Tree(MergeStore(s, z, i), lvl - {y}, Adopt(par, s[y].kids, x), root, height)
  {
    NeighbourFacts(s, lvl, par, root, height, z, i);
    MergeKeepsChanged(s, lvl, par, root, height, z, i);
    var x, y := s[z].kids[i], s[z].kids[i + 1];
    var lvl', par' := lvl - {y}, Adopt(par, s[y].kids, x);
    forall p | p in lvl' ensures NodeOk(MergeStore(s, z, i), lvl', par', p) {
      if p != x && p != z {
        MergeKeepsOther(s, lvl, par, root, height, z, i, p);
      }
    }
  }

  lemma MergeSpells<V>(s: Store<V>, lvl: map<nat, nat>, par: map<nat, nat>, root: nat, height: nat, z: nat, i: nat)
    requires Neighbours(s, lvl, par, root, height, z, i)
    ensures var x, y := s[z].kids[i], s[z].kids[i + 1];
      x in lvl && Flat(MergeStore(s, z, i), x, lvl[x]) == Flat(s, x, lvl[x]) + [s[z].items[i]] + Flat(s, y, lvl[x])
  {
    NeighbourFacts(s, lvl, par, root, height, z, i);
    var x, n := s[z].kids[i], Joined(s, z, i);
    JoinedSpells(s, lvl, par, root, height, z, i);
    NodeFlatUntouched(s, MergeStore(s, z, i), lvl, par, n.items, n.kids, lvl[x]);
  }

  lemma MergeSibling<V>(s: Store<V>, lvl: map<nat, nat>, par: map<nat, nat>, root: nat, height: nat, z: nat, i: nat,
                        j: nat)
    requires Neighbours(s, lvl, par, root, height, z, i)
    requires j != i && j + 1 < |s[z].kids|
    ensures var t := MergeStore(s, z, i);
      j < |t[z].kids| && Flat(t, t[z].kids[j], lvl[z] - 1) == Flat(s, t[z].kids[j], lvl[z] - 1)
  {
    NeighbourFacts(s, lvl, par, root, height, z, i);
    var t := MergeStore(s, z, i);
    assert t[z].kids[j] == s[z].kids[if j < i then j else j + 1];
    SiblingUntouched(s, t, lvl, par, t[z].kids[j]);
  }

  lemma MergeKeepsFlat<V>(s: Store<V>, lvl: map<nat, nat>, par: map<nat, nat>, root: nat, height: nat, z: nat, i: nat)
    requires Neighbours(s, lvl, par, root, height, z, i)
    ensures Flat(MergeStore(s, z, i), root, height) == Flat(s, root, height)
  {
    hide KidsOk, Flat;
    NeighbourFacts(s, lvl, par, root, height, z, i);
    var x, y := s[z].kids[i], s[z].kids[i + 1];
    var t, h := MergeStore(s, z, i), lvl[x];
    MergeSpells(s, lvl, par, root, height, z, i);
    forall j | 0 <= j < |t[z].kids| && j != i ensures Flat(t, t[z].kids[j], h) == Flat(s, t[z].kids[j], h) {
      MergeSibling(s, lvl, par, root, height, z, i, j);
    }
    TwoForOne(t, s, z, i, x, y, s[z].items[i], h);
    LocalChange(s, t, lvl, par, root, height, z);
  }

  // ---- Raising and lowering the root

  /** A fresh root above the old one, with no entry and one child, spells the
      same; splitting that child makes it a proper root. */
  lemma RaiseRoot<V>(s: Store<V>, lvl: map<nat, nat>, par: map<nat, nat>, root: nat, height: nat, z: nat)
    requires Tree(s, lvl, par, root, height)
    requires z !in s && z != 0
    ensures Tree(s[z := Node([], [root])], lvl[z := height + 1], par[root := z], z, height + 1)
    ensures Flat(s[z := Node([], [root])], z, height + 1) == Flat(s, root, height)
  {
    var t, lvl', par' := s[z := Node([], [root])], lvl[z := height + 1], par[root := z];
    assert NodeOk(s, lvl, par, root);
    forall p | p in lvl' ensures NodeOk(t, lvl', par', p) {
      if p != z {
        assert NodeOk(s, lvl, par, p);
        assert forall q :: q in s[p].kids ==> q in lvl && lvl[q] < height;
      }
    }
    FlatUntouched(s, t, lvl, par, root);
    assert KidFlats(t, [root], height)[0] == Flat(s, root, height);
  }

  /** A root with no entry spells what its only child spells. */
  lemma LowerRoot<V>(s: Store<V>, lvl: map<nat, nat>, par: map<nat, nat>, root: nat, height: nat)
    requires Tree(s, lvl, par, root, height) && height > 1 && s[root].items == []
    ensures |s[root].kids| == 1
    ensures Tree(s, map p | p in lvl && lvl[p] < height :: lvl[p], par, s[root].kids[0], height - 1)
    ensures Flat(s, s[root].kids[0], height - 1) == Flat(s, root, height)
  {
    assert NodeOk(s, lvl, par, root);
    var lvl' := map p | p in lvl && lvl[p] < height :: lvl[p];
    forall p | p in lvl' ensures NodeOk(s, lvl', par, p) {
      assert NodeOk(s, lvl, par, p);
    }
    assert KidFlats(s, s[root].kids, height - 1)[0] == Flat(s, s[root].kids[0], height - 1);
  }
}
