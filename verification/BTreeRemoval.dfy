// The steps of removal: taking the entry out of a leaf, and putting an
// underfull node right by borrowing or merging.
module BTreeRemoval {
  import opened SortedEntries
  import opened BTreeStore
  import opened BTreePath
  import opened BTreeSteps

  /** Only level `i` of the path may be one entry short. */
  ghost predicate Underfull<V>(s: Store<V>, lvl: map<nat, nat>, par: map<nat, nat>, root: nat, height: nat, max: nat,
                               nodes: seq<nat>, positions: seq<nat>, i: nat) {
    && PathIntact(s, lvl, root, height, nodes, positions, i)
    && Tree(s, lvl, par, root, height) && Sizes(s, lvl, root, height, max, nodes[i])
    && nodes[i] in s && |s[nodes[i]].items| <= max && (i > 0 ==> |s[nodes[i]].items| + 1 >= max / 2)
  }

  // ---- Taking the entry out

  lemma LeafShrinks<V>(s: Store<V>, lvl: map<nat, nat>, par: map<nat, nat>, root: nat, height: nat, max: nat,
                       nodes: seq<nat>, positions: seq<nat>, n: Node<V>)
    requires Tree(s, lvl, par, root, height) && Sizes(s, lvl, root, height, max, 0)
    requires IsPath(s, root, height, nodes, positions) && |nodes| == height
    requires nodes[height - 1] in s && n.kids == [] && |n.items| + 1 == |s[nodes[height - 1]].items|
    ensures Underfull(s[nodes[height - 1] := n], lvl, par, root, height, max, nodes, positions, height - 1)
  {
    var x := nodes[height - 1];
    PathIsIntact(s, lvl, par, root, height, nodes, positions);
    var t := s[x := n];
    assert 0 !in lvl && NodeOk(s, lvl, par, root);
    assert SizeOk(|s[x].items|, x == root, height, max);
    SizesBut(s, lvl, root, height, max, 0, x, n);
    LeafRewritten(s, lvl, par, root, height, x, n);
    forall k | 0 <= k < height - 1 ensures StepsDown(t, nodes, positions, k) {
      assert StepsDown(s, nodes, positions, k);
      assert lvl[nodes[k]] > 1;
    }
    hide Tree, NodeOk, Sizes;
  }

  lemma RemoveFromLeaf<V>(s: Store<V>, lvl: map<nat, nat>, par: map<nat, nat>, root: nat, height: nat,
                          nodes: seq<nat>, positions: seq<nat>, k: int, n: Node<V>)
    requires Tree(s, lvl, par, root, height) && Sorted(Flat(s, root, height))
    requires IsPath(s, root, height, nodes, positions) && |nodes| == height
    requires Turns(s, nodes, positions, k, height - 1)
    requires var x, pos := nodes[height - 1], positions[height - 1];
      && x in s && pos < |s[x].items| && s[x].items[pos].key == k
      && n == Node(s[x].items[..pos] + s[x].items[pos + 1..], s[x].kids)
    ensures Flat(s[nodes[height - 1] := n], root, height) == Remove(Flat(s, root, height), k)
  {
    var x, pos := nodes[height - 1], positions[height - 1];
    var t := s[x := n];
    PathIsIntact(s, lvl, par, root, height, nodes, positions);
    SortedDownTo(s, lvl, par, root, height, nodes, positions, height - 1);
    RemoveAt(s[x].items, pos);
    RemoveAlongPath(s, t, lvl, par, root, height, nodes, positions, k, height - 1, 0);
  }

  lemma RemoveAt<V>(items: seq<Entry<V>>, pos: nat)
    requires Sorted(items) && pos < |items|
    ensures Remove(items, items[pos].key) == items[..pos] + items[pos + 1..]
  {
    hide Remove, Sorted, Above, Below;
    var e, a, b := items[pos], items[..pos], items[pos + 1..];
    RemoveSingle(e);
    AroundEntry(items, pos);
    assert a + [e] + b == items;
    RemoveBetween(a, [e], b, e.key);
    assert a + [] + b == a + b;
  }

  lemma AroundEntry<V>(items: seq<Entry<V>>, pos: nat)
    requires Sorted(items) && pos < |items|
    ensures Below(items[..pos], items[pos].key) && Above(items[pos + 1..], items[pos].key)
  {}

  lemma RemoveSingle<V>(e: Entry<V>)
    ensures Remove([e], e.key) == []
  {}

  lemma {:induction false} SortedDownTo<V>(s: Store<V>, lvl: map<nat, nat>, par: map<nat, nat>, root: nat, height: nat,
                                           nodes: seq<nat>, positions: seq<nat>, i: nat)
    requires Tree(s, lvl, par, root, height) && Sorted(Flat(s, root, height))
    requires IsPath(s, root, height, nodes, positions) && |nodes| == height && i < height
    ensures Sorted(Flat(s, nodes[i], height - i))
  {
    if i > 0 {
      SortedDownTo(s, lvl, par, root, height, nodes, positions, i - 1);
      PathLevels(s, lvl, par, root, height, nodes, positions, i - 1);
      SortedOnPath(s, lvl, par, root, height, nodes, positions, i - 1);
    }
  }

  /** The entry at level `j` is overwritten by its predecessor, which leaves its
      leaf at the right edge of the child before it. */
  ghost function Replaced<V>(s: Store<V>, z: nat, pos: nat, x: nat): Store<V>
    requires z in s && x in s && pos < |s[z].items| && |s[x].items| > 0
  {
    var last := s[x].items[|s[x].items| - 1];
    s[z := Node(s[z].items[pos := last], s[z].kids)]
     [x := Node(s[x].items[..|s[x].items| - 1], s[x].kids)]
  }

  ghost predicate EdgePath<V>(s: Store<V>, root: nat, height: nat, nodes: seq<nat>, positions: seq<nat>, j: nat) {
    && IsPath(s, root, height, nodes, positions) && |nodes| == height && j + 1 < height
    && (forall a :: j < a < height - 1 ==> nodes[a] in s && positions[a] == |s[nodes[a]].items|)
    && nodes[j] in s && positions[j] < |s[nodes[j]].items|
    && nodes[height - 1] in s && |s[nodes[height - 1]].items| > 0
  }

  lemma ReplacedFrame<V>(s: Store<V>, lvl: map<nat, nat>, par: map<nat, nat>, root: nat, height: nat,
                         nodes: seq<nat>, positions: seq<nat>, j: nat)
    requires Tree(s, lvl, par, root, height) && EdgePath(s, root, height, nodes, positions, j)
    ensures |s[nodes[j]].kids| == |s[nodes[j]].items| + 1
    ensures var z, x := nodes[j], nodes[height - 1];
      var t := Replaced(s, z, positions[j], x);
      && (forall p :: p in lvl && p != z && p != x ==> p in s && p in t && t[p] == s[p])
      && (forall p :: p in lvl && p !in nodes ==> p in s && p in t && t[p] == s[p])
      && z in t && t[z] == Node(s[z].items[positions[j] := s[x].items[|s[x].items| - 1]], s[z].kids)
      && x in t && t[x] == Node(s[x].items[..|s[x].items| - 1], s[x].kids)
  {
    PathLevels(s, lvl, par, root, height, nodes, positions, j);
    PathLevels(s, lvl, par, root, height, nodes, positions, height - 1);
    assert nodes[j] in nodes && nodes[height - 1] in nodes;
    assert forall p :: p in lvl ==> NodeOk(s, lvl, par, p);
  }

  lemma ReplacedFocus<V>(s: Store<V>, lvl: map<nat, nat>, par: map<nat, nat>, root: nat, height: nat,
                         nodes: seq<nat>, positions: seq<nat>, j: nat)
    requires Tree(s, lvl, par, root, height)
    requires EdgePath(s, root, height, nodes, positions, j)
    ensures |s[nodes[j]].kids| == |s[nodes[j]].items| + 1
    ensures var fs, f, pos := KidFlats(s, s[nodes[j]].kids, height - j - 1), Flat(s, nodes[j + 1], height - j - 1),
      positions[j];
      var x := nodes[height - 1];
      var items, t := s[nodes[j]].items, Replaced(s, nodes[j], pos, x);
      && |f| > 0 && t[nodes[j]].items == items[pos := f[|f| - 1]]
      && Flat(s, nodes[j], height - j) == LeftOf(fs, items, pos) + f + RightOf(fs, items, pos)
      && Flat(t, nodes[j], height - j)
           == LeftOf(fs, t[nodes[j]].items, pos) + f[..|f| - 1] + RightOf(fs, t[nodes[j]].items, pos)
  {
    hide Weave, Flat;
    var t := Replaced(s, nodes[j], positions[j], nodes[height - 1]);
    ReplacedFrame(s, lvl, par, root, height, nodes, positions, j);
    DropAlongEdge(s, t, lvl, par, root, height, nodes, positions, j + 1, j);
    FocusStep(s, t, lvl, par, root, height, nodes, positions, j);
  }

  lemma ReplacedSpells<V>(s: Store<V>, lvl: map<nat, nat>, par: map<nat, nat>, root: nat, height: nat,
                          nodes: seq<nat>, positions: seq<nat>, j: nat)
    requires Tree(s, lvl, par, root, height) && Sorted(Flat(s, root, height))
    requires EdgePath(s, root, height, nodes, positions, j)
    ensures Flat(Replaced(s, nodes[j], positions[j], nodes[height - 1]), nodes[j], height - j)
         == Remove(Flat(s, nodes[j], height - j), s[nodes[j]].items[positions[j]].key)
  {
    hide Sorted;
    SortedDownTo(s, lvl, par, root, height, nodes, positions, j);
    ReplacedFocus(s, lvl, par, root, height, nodes, positions, j);
    var pos, h, items := positions[j], height - j, s[nodes[j]].items;
    var fs, f := KidFlats(s, s[nodes[j]].kids, h - 1), Flat(s, nodes[j + 1], h - 1);
    RemovedByReplacing(fs, items, pos, f);
  }

  lemma RemovedByReplacing<V>(fs: seq<seq<Entry<V>>>, items: seq<Entry<V>>, pos: nat, f: seq<Entry<V>>)
    requires |fs| == |items| + 1 && pos < |items| && |f| > 0
    requires Sorted(LeftOf(fs, items, pos) + f + RightOf(fs, items, pos))
    ensures Remove(LeftOf(fs, items, pos) + f + RightOf(fs, items, pos), items[pos].key)
         == LeftOf(fs, items[pos := f[|f| - 1]], pos) + f[..|f| - 1] + RightOf(fs, items[pos := f[|f| - 1]], pos)
  {
    SeparatorReplaced(fs, items, pos, f[|f| - 1]);
    PredecessorMovesUp(LeftOf(fs, items, pos), f, items[pos], Weave(fs[pos + 1..], items[pos + 1..]));
  }

  lemma PredecessorMovesUp<V>(l: seq<Entry<V>>, f: seq<Entry<V>>, e: Entry<V>, r: seq<Entry<V>>)
    requires |f| > 0 && Sorted(l + f + ([e] + r))
    ensures Remove(l + f + ([e] + r), e.key) == l + f[..|f| - 1] + ([f[|f| - 1]] + r)
  {
    var s := l + f + ([e] + r);
    assert s == (l + f) + [e] + r;
    SortedParts(l + f, [e], r);
    assert [e][0] == e;
    RemoveBetween(l + f, [e], r, e.key);
    assert f == f[..|f| - 1] + [f[|f| - 1]];
  }

  lemma SeparatorReplaced<V>(fs: seq<seq<Entry<V>>>, ps: seq<Entry<V>>, pos: nat, e: Entry<V>)
    requires |fs| == |ps| + 1 && pos < |ps|
    ensures LeftOf(fs, ps[pos := e], pos) == LeftOf(fs, ps, pos)
    ensures RightOf(fs, ps[pos := e], pos) == [e] + Weave(fs[pos + 1..], ps[pos + 1..])
  {
    var qs := ps[pos := e];
    assert qs[pos + 1..] == ps[pos + 1..];
    if pos > 0 {
      assert qs[..pos - 1] == ps[..pos - 1];
    }
  }

  lemma RemoveFromInner<V>(s: Store<V>, lvl: map<nat, nat>, par: map<nat, nat>, root: nat, height: nat,
                           nodes: seq<nat>, positions: seq<nat>, j: nat, k: int)
    requires Tree(s, lvl, par, root, height) && Sorted(Flat(s, root, height))
    requires EdgePath(s, root, height, nodes, positions, j) && Turns(s, nodes, positions, k, j)
    requires s[nodes[j]].items[positions[j]].key == k
    ensures Flat(Replaced(s, nodes[j], positions[j], nodes[height - 1]), root, height)
         == Remove(Flat(s, root, height), k)
  {
    var t := Replaced(s, nodes[j], positions[j], nodes[height - 1]);
    ReplacedSpells(s, lvl, par, root, height, nodes, positions, j);
    PathLevels(s, lvl, par, root, height, nodes, positions, j);
    assert forall p :: p in lvl ==> NodeOk(s, lvl, par, p);
    assert nodes[j] in nodes[j..] && nodes[height - 1] in nodes[j..] by {
      assert nodes[j..][0] == nodes[j] && nodes[j..][height - 1 - j] == nodes[height - 1];
    }
    RemoveAlongPath(s, t, lvl, par, root, height, nodes, positions, k, j, 0);
  }

  lemma ReplacedIsUnderfull<V>(s: Store<V>, lvl: map<nat, nat>, par: map<nat, nat>, root: nat, height: nat, max: nat,
                               nodes: seq<nat>, positions: seq<nat>, j: nat)
    requires Tree(s, lvl, par, root, height) && Sizes(s, lvl, root, height, max, 0)
    requires EdgePath(s, root, height, nodes, positions, j)
    ensures Underfull(Replaced(s, nodes[j], positions[j], nodes[height - 1]), lvl, par, root, height, max,
                      nodes, positions, height - 1)
  {
    var z, x, pos := nodes[j], nodes[height - 1], positions[j];
    PathLevels(s, lvl, par, root, height, nodes, positions, j);
    PathLevels(s, lvl, par, root, height, nodes, positions, height - 1);
    var items := s[z].items[pos := s[x].items[|s[x].items| - 1]];
    var u := s[z := Node(items, s[z].kids)];
    EntryReplaced(s, lvl, par, root, height, z, items);
    forall i | 0 <= i < height - 1 ensures StepsDown(u, nodes, positions, i) {
      assert StepsDown(s, nodes, positions, i);
    }
    assert NodeOk(s, lvl, par, x);
    LeafShrinks(u, lvl, par, root, height, max, nodes, positions, Node(s[x].items[..|s[x].items| - 1], s[x].kids));
  }

  // ---- Putting an underfull node right

  lemma MergeSizes<V>(s: Store<V>, lvl: map<nat, nat>, root: nat, height: nat, max: nat, z: nat, j: nat, exc: nat)
    requires max >= 2 && max % 2 == 0 && Sizes(s, lvl, root, height, max, exc)
    requires z in s && j < |s[z].items| && j + 1 < |s[z].kids|
    requires var x, y := s[z].kids[j], s[z].kids[j + 1];
      && x in s && y in s && x != y && x != z && y != z && x != root
      && (exc == x || exc == y) && max / 2 <= |Joined(s, z, j).items| <= max
    ensures Sizes(MergeStore(s, z, j), lvl - {s[z].kids[j + 1]}, root, height, max, z)
  {}

  /** Merging moves the shortage, if any, to the parent. */
  lemma MergeStep<V>(s: Store<V>, lvl: map<nat, nat>, par: map<nat, nat>, root: nat, height: nat, max: nat,
                     nodes: seq<nat>, positions: seq<nat>, i: nat, j: nat)
    requires max >= 2 && max % 2 == 0 && i > 0
    requires Underfull(s, lvl, par, root, height, max, nodes, positions, i)
    requires Neighbours(s, lvl, par, root, height, nodes[i - 1], j)
    requires positions[i - 1] == j || positions[i - 1] == j + 1
    requires max / 2 <= |Joined(s, nodes[i - 1], j).items| <= max
    ensures var x, y := s[nodes[i - 1]].kids[j], s[nodes[i - 1]].kids[j + 1];
      Underfull(MergeStore(s, nodes[i - 1], j), lvl - {y}, Adopt(par, s[y].kids, x), root, height, max,
                nodes, positions, i - 1)
  {
    hide Joined, NodeOk, Adopt;
    var z := nodes[i - 1];
    var x, y := s[z].kids[j], s[z].kids[j + 1];
    NeighbourFacts(s, lvl, par, root, height, z, j);
    assert StepsDown(s, nodes, positions, i - 1);
    MergeKeepsTree(s, lvl, par, root, height, z, j);
    assert SizeOk(|s[z].items|, z == root, height, max);
    assert lvl[x] < height;
    MergeSizes(s, lvl, root, height, max, z, j, nodes[i]);
    PathShortened(s, MergeStore(s, z, j), lvl, lvl - {y}, root, height, nodes, positions, i);
  }

  lemma PathShortened<V>(s: Store<V>, t: Store<V>, lvl: map<nat, nat>, lvl': map<nat, nat>, root: nat, height: nat,
                         nodes: seq<nat>, positions: seq<nat>, i: nat)
    requires PathIntact(s, lvl, root, height, nodes, positions, i) && i > 0
    requires forall q :: q in lvl && lvl[q] > lvl[nodes[i]] ==> q in lvl' && lvl'[q] == lvl[q]
    requires forall q :: q in lvl && q in s && lvl[q] > lvl[nodes[i]] + 1 ==> q in t && t[q] == s[q]
    ensures PathIntact(t, lvl', root, height, nodes, positions, i - 1)
  {
    forall k | 0 <= k < i - 1 ensures StepsDown(t, nodes, positions, k) {
      assert StepsDown(s, nodes, positions, k);
    }
  }

  ghost predicate TwoKids<V>(s: Store<V>, z: nat, j: nat) {
    && z in s && j < |s[z].items| && j + 1 < |s[z].kids| && s[z].kids[j] in s && s[z].kids[j + 1] in s
    && s[z].kids[j] != z && s[z].kids[j + 1] != z && s[z].kids[j] != s[z].kids[j + 1]
  }

  /** The entries of children `j` and `j + 1` of `z` dealt out again, `m` of
      them to the left: a merge and a split at another place. */
  ghost function Redealt<V>(s: Store<V>, z: nat, j: nat, m: nat): Store<V>
    requires TwoKids(s, z, j)
    requires m < |Joined(s, z, j).items|
  {
    SplitStore(MergeStore(s, z, j), z, j, s[z].kids[j], s[z].kids[j + 1], m)
  }

  lemma RedealtSizes<V>(s: Store<V>, lvl: map<nat, nat>, root: nat, height: nat, max: nat, z: nat, j: nat, m: nat,
                        exc: nat)
    requires max >= 2 && max % 2 == 0 && Sizes(s, lvl, root, height, max, exc)
    requires TwoKids(s, z, j)
    requires var x, y := s[z].kids[j], s[z].kids[j + 1];
      && x != root && y != root && (exc == x || exc == y)
      && max / 2 <= m <= max && m < |Joined(s, z, j).items| && max / 2 <= |Joined(s, z, j).items| - 1 - m <= max
    ensures Sizes(Redealt(s, z, j, m), lvl, root, height, max, 0)
  {
    var x, y := s[z].kids[j], s[z].kids[j + 1];
    var t := Redealt(s, z, j, m);
    assert |t[x].items| == m && |t[y].items| == |Joined(s, z, j).items| - 1 - m;
    assert |t[z].items| == |s[z].items|;
    assert forall p :: p in s && p != x && p != y && p != z ==> p in t && t[p] == s[p];
  }

  ghost function RedealtParents<V>(s: Store<V>, par: map<nat, nat>, z: nat, j: nat, m: nat): map<nat, nat>
    requires TwoKids(s, z, j)
  {
    var x, y := s[z].kids[j], s[z].kids[j + 1];
    Adopt(Adopt(par, s[y].kids, x), Back(Joined(s, z, j).kids, m + 1), y)[y := z]
  }

  lemma RedealTree<V>(s: Store<V>, lvl: map<nat, nat>, par: map<nat, nat>, root: nat, height: nat,
                      z: nat, j: nat, m: nat)
    requires Neighbours(s, lvl, par, root, height, z, j) && m < |Joined(s, z, j).items|
    ensures TwoKids(s, z, j)
    ensures Tree(Redealt(s, z, j, m), lvl, RedealtParents(s, par, z, j, m), root, height)
  {
    hide KidsOk;
    NeighbourFacts(s, lvl, par, root, height, z, j);
    var x, y := s[z].kids[j], s[z].kids[j + 1];
    MergeKeepsTree(s, lvl, par, root, height, z, j);
    var u := MergeStore(s, z, j);
    assert u[z].kids[j] == x && u[x] == Joined(s, z, j) && (lvl - {y})[y := lvl[x]] == lvl;
    SplitKeepsTree(u, lvl - {y}, Adopt(par, s[y].kids, x), root, height, z, j, x, y, m);
  }

  lemma RedealFlat<V>(s: Store<V>, lvl: map<nat, nat>, par: map<nat, nat>, root: nat, height: nat,
                      z: nat, j: nat, m: nat)
    requires Neighbours(s, lvl, par, root, height, z, j) && m < |Joined(s, z, j).items|
    ensures TwoKids(s, z, j)
    ensures Flat(Redealt(s, z, j, m), root, height) == Flat(s, root, height)
  {
    hide KidsOk, Flat;
    NeighbourFacts(s, lvl, par, root, height, z, j);
    var x, y := s[z].kids[j], s[z].kids[j + 1];
    MergeKeepsTree(s, lvl, par, root, height, z, j);
    MergeKeepsFlat(s, lvl, par, root, height, z, j);
    var u := MergeStore(s, z, j);
    assert u[z].kids[j] == x && u[x] == Joined(s, z, j) && (lvl - {y})[y := lvl[x]] == lvl;
    SplitKeepsFlat(u, lvl - {y}, Adopt(par, s[y].kids, x), root, height, z, j, x, y, m);
  }

  /** Borrowing puts the shortage right and changes nothing else. */
  lemma RedealStep<V>(s: Store<V>, lvl: map<nat, nat>, par: map<nat, nat>, root: nat, height: nat, max: nat,
                      z: nat, j: nat, m: nat, exc: nat)
    requires max >= 2 && max % 2 == 0 && Neighbours(s, lvl, par, root, height, z, j)
    requires Sizes(s, lvl, root, height, max, exc) && (exc == s[z].kids[j] || exc == s[z].kids[j + 1])
    requires max / 2 <= m <= max && m < |Joined(s, z, j).items| && max / 2 <= |Joined(s, z, j).items| - 1 - m <= max
    ensures TwoKids(s, z, j)
    ensures Tree(Redealt(s, z, j, m), lvl, RedealtParents(s, par, z, j, m), root, height)
    ensures Sizes(Redealt(s, z, j, m), lvl, root, height, max, 0)
    ensures Flat(Redealt(s, z, j, m), root, height) == Flat(s, root, height)
  {
    NeighbourFacts(s, lvl, par, root, height, z, j);
    assert lvl[s[z].kids[j]] < height;
    RedealtSizes(s, lvl, root, height, max, z, j, m, exc);
    hide Sizes, NodeOk, Tree;
    RedealTree(s, lvl, par, root, height, z, j, m);
    RedealFlat(s, lvl, par, root, height, z, j, m);
  }

  lemma CanLend<V>(s: Store<V>, lvl: map<nat, nat>, par: map<nat, nat>, root: nat, height: nat, z: nat, j: nat)
    requires Neighbours(s, lvl, par, root, height, z, j)
    ensures TwoKids(s, z, j)
    ensures SameShape(s[s[z].kids[j]], s[s[z].kids[j + 1]])
  {
    NeighbourFacts(s, lvl, par, root, height, z, j);
  }

  ghost predicate SameShape<V>(a: Node<V>, b: Node<V>) {
    (a.kids == [] && b.kids == []) || (|a.kids| == |a.items| + 1 && |b.kids| == |b.items| + 1)
  }

  /** The left neighbour's last entry goes up, the separator comes down. */
  lemma BorrowedFromLeft<V>(s: Store<V>, z: nat, j: nat)
    requires TwoKids(s, z, j)
    requires SameShape(s[s[z].kids[j]], s[s[z].kids[j + 1]]) && |s[s[z].kids[j]].items| > 0
    ensures var x, y := s[z].kids[j], s[z].kids[j + 1];
      var a, b, up := s[x], s[y], s[z];
      var n := |a.items| - 1;
      Redealt(s, z, j, n)
        == s[y := Node([up.items[j]] + b.items, if a.kids == [] then b.kids else [a.kids[n + 1]] + b.kids)]
            [x := Node(a.items[..n], if a.kids == [] then [] else a.kids[..n + 1])]
            [z := Node(up.items[j := a.items[n]], up.kids)]
  {
    var a, b, up := s[s[z].kids[j]], s[s[z].kids[j + 1]], s[z];
    var n := |a.items| - 1;
    var joined := Joined(s, z, j);
    assert joined.items[..n] == a.items[..n] && joined.items[n] == a.items[n];
    assert joined.items[n + 1..] == [up.items[j]] + b.items;
    if a.kids != [] {
      assert joined.kids[..n + 1] == a.kids[..n + 1] && joined.kids[n + 1..] == [a.kids[n + 1]] + b.kids;
    }
    ParentRedealt(up, j, a.items[n]);
  }

  /** The right neighbour's first entry goes up, the separator comes down. */
  lemma BorrowedFromRight<V>(s: Store<V>, z: nat, j: nat)
    requires TwoKids(s, z, j)
    requires SameShape(s[s[z].kids[j]], s[s[z].kids[j + 1]]) && |s[s[z].kids[j + 1]].items| > 0
    ensures var x, y := s[z].kids[j], s[z].kids[j + 1];
      var a, b, up := s[x], s[y], s[z];
      Redealt(s, z, j, |a.items| + 1)
        == s[y := Node(b.items[1..], if a.kids == [] then [] else b.kids[1..])]
            [x := Node(a.items + [up.items[j]], if a.kids == [] then [] else a.kids + [b.kids[0]])]
            [z := Node(up.items[j := b.items[0]], up.kids)]
  {
    var a, b, up := s[s[z].kids[j]], s[s[z].kids[j + 1]], s[z];
    var n := |a.items| + 1;
    var joined := Joined(s, z, j);
    assert joined.items[..n] == a.items + [up.items[j]] && joined.items[n] == b.items[0];
    assert joined.items[n + 1..] == b.items[1..];
    if a.kids != [] {
      assert joined.kids[..n + 1] == a.kids + [b.kids[0]] && joined.kids[n + 1..] == b.kids[1..];
    }
    ParentRedealt(up, j, b.items[0]);
  }

  lemma ParentRedealt<V>(up: Node<V>, j: nat, e: Entry<V>)
    requires j < |up.items| && j + 1 < |up.kids|
    ensures var items, kids := up.items[..j] + up.items[j + 1..], up.kids[..j + 1] + up.kids[j + 2..];
      && items[..j] + [e] + items[j..] == up.items[j := e]
      && kids[..j + 1] + [up.kids[j + 1]] + kids[j + 1..] == up.kids
  {}

  // ---- What the loop reads

  ghost predicate ChildOk<V>(s: Store<V>, max: nat, z: nat, a: nat, p: nat, h: nat)
    requires z in s && a < |s[z].kids|
  {
    var c := s[z].kids[a];
    && c in s && (a != p ==> max / 2 <= |s[c].items| <= max)
    && if h == 2 then s[c].kids == [] else |s[c].kids| == |s[c].items| + 1
  }

  /** The facts the rebalancing loop relies on at level `i > 0`: a parent with
      at least one entry, so at least one neighbour, and neighbours no smaller
      than the minimum. */
  lemma UnderfullNode<V>(s: Store<V>, lvl: map<nat, nat>, par: map<nat, nat>, root: nat, height: nat, max: nat,
                         nodes: seq<nat>, positions: seq<nat>, i: nat, z: nat, p: nat)
    requires max >= 2 && max % 2 == 0
    requires Underfull(s, lvl, par, root, height, max, nodes, positions, i) && i > 0
    requires z == nodes[i - 1] && p == positions[i - 1]
    ensures z in lvl && z in s && p < |s[z].kids| && s[z].kids[p] == nodes[i]
    ensures p <= |s[z].items| == |s[z].kids| - 1 && |s[z].items| >= 1
    ensures forall a :: 0 <= a < |s[z].items| ==> Neighbours(s, lvl, par, root, height, z, a)
    ensures nodes[i] in s && |s[nodes[i]].items| + 1 >= max / 2
    ensures forall a :: 0 <= a < |s[z].kids| ==> ChildOk(s, max, z, a, p, lvl[z])
  {
    assert NodeOk(s, lvl, par, z) && lvl[z] > 1;
    assert StepsDown(s, nodes, positions, i - 1);
    assert SizeOk(|s[z].items|, z == root, height, max);
    forall a | 0 <= a < |s[z].kids|
      ensures ChildOk(s, max, z, a, p, lvl[z])
    {
      var c := s[z].kids[a];
      assert lvl[c] + 1 == lvl[z] && c != root && NodeOk(s, lvl, par, c);
      assert a != p ==> c != nodes[i];
    }
  }

  lemma NoLongerUnderfull<V>(s: Store<V>, lvl: map<nat, nat>, par: map<nat, nat>, root: nat, height: nat, max: nat,
                             nodes: seq<nat>, positions: seq<nat>, i: nat)
    requires Underfull(s, lvl, par, root, height, max, nodes, positions, i)
    requires nodes[i] in s && SizeOk(|s[nodes[i]].items|, i == 0, height, max)
    ensures Tree(s, lvl, par, root, height) && Sizes(s, lvl, root, height, max, 0)
  {
    SizesBut(s, lvl, root, height, max, nodes[i], nodes[i], s[nodes[i]]);
    assert s == s[nodes[i] := s[nodes[i]]];
  }
}
