// One step of the two rebalancing loops, as facts about the whole tree.
module BTreeSteps {
  import opened SortedEntries
  import opened BTreeStore
  import opened BTreePath

  /** Rewriting the entries of a leaf keeps the tree a tree. */
  lemma LeafRewritten<V>(s: Store<V>, lvl: map<nat, nat>, par: map<nat, nat>, root: nat, height: nat, x: nat,
                         n: Node<V>)
    requires Tree(s, lvl, par, root, height) && x in lvl && lvl[x] == 1 && n.kids == []
    ensures Tree(s[x := n], lvl, par, root, height)
  {
    forall p | p in lvl ensures NodeOk(s[x := n], lvl, par, p) {
      assert NodeOk(s, lvl, par, p);
    }
  }

  /** Changing one entry of an inner node keeps the tree a tree. */
  lemma EntryReplaced<V>(s: Store<V>, lvl: map<nat, nat>, par: map<nat, nat>, root: nat, height: nat, z: nat,
                         items: seq<Entry<V>>)
    requires Tree(s, lvl, par, root, height) && z in lvl && z in s && |items| == |s[z].items|
    ensures Tree(s[z := Node(items, s[z].kids)], lvl, par, root, height)
  {
    forall p | p in lvl ensures NodeOk(s[z := Node(items, s[z].kids)], lvl, par, p) {
      assert NodeOk(s, lvl, par, p);
    }
  }

  ghost predicate Overfull<V>(s: Store<V>, lvl: map<nat, nat>, par: map<nat, nat>, root: nat, height: nat,
                              max: nat, x: nat) {
    && max >= 2 && max % 2 == 0
    && Tree(s, lvl, par, root, height) && Sizes(s, lvl, root, height, max, x)
    && x in lvl && x in s && |s[x].items| == max + 1
  }

  lemma SplitSizes<V>(s: Store<V>, lvl: map<nat, nat>, root: nat, height: nat, max: nat,
                      z: nat, pos: nat, x: nat, y: nat)
    requires max >= 2 && max % 2 == 0
    requires forall p :: p in lvl && p != x && p != z ==> p in s && SizeOk(|s[p].items|, p == root, height, max)
    requires x in s && |s[x].items| == max + 1 && x != z && x != root && y !in lvl && root in lvl
    requires z in s && pos <= |s[z].items| && pos < |s[z].kids| && x in lvl
    ensures Sizes(SplitStore(s, z, pos, x, y, max / 2), lvl[y := lvl[x]], root, height, max, z)
  {
    var t := SplitStore(s, z, pos, x, y, max / 2);
    assert |t[x].items| == max / 2;
    assert y != z ==> |t[y].items| == max / 2;
  }

  /** Splitting an overfull node moves the overflow, if any, to its parent and
      changes nothing of what the tree spells. */
  lemma SplitStep<V>(s: Store<V>, lvl: map<nat, nat>, par: map<nat, nat>, root: nat, height: nat, max: nat,
                     z: nat, pos: nat, x: nat, y: nat)
    requires Overfull(s, lvl, par, root, height, max, x)
    requires z in lvl && lvl[z] > 1 && z in s && pos < |s[z].kids| && s[z].kids[pos] == x
    requires y !in lvl && y != 0 && x != root
    ensures pos <= |s[z].items|
    ensures Tree(SplitStore(s, z, pos, x, y, max / 2), lvl[y := lvl[x]],
                 Adopt(par, Back(s[x].kids, max / 2 + 1), y)[y := z], root, height)
    ensures Sizes(SplitStore(s, z, pos, x, y, max / 2), lvl[y := lvl[x]], root, height, max, z)
    ensures Flat(SplitStore(s, z, pos, x, y, max / 2), root, height) == Flat(s, root, height)
  {
    hide Tree;
    ChildFacts(s, lvl, par, root, height, z, pos);
    SplitSizes(s, lvl, root, height, max, z, pos, x, y);
    SplitKeepsTree(s, lvl, par, root, height, z, pos, x, y, max / 2);
    SplitKeepsFlat(s, lvl, par, root, height, z, pos, x, y, max / 2);
  }

  lemma ChildFacts<V>(s: Store<V>, lvl: map<nat, nat>, par: map<nat, nat>, root: nat, height: nat, z: nat, pos: nat)
    requires Tree(s, lvl, par, root, height)
    requires z in lvl && lvl[z] > 1 && z in s && pos < |s[z].kids|
    ensures pos <= |s[z].items| && s[z].kids[pos] != z && s[z].kids[pos] in lvl && s[z].kids[pos] in s
    ensures root in lvl
  {
    assert NodeOk(s, lvl, par, z);
    assert NodeOk(s, lvl, par, s[z].kids[pos]);
  }

  /** Splitting an overfull root puts a new root with one entry above it. */
  lemma SplitRootStep<V>(s: Store<V>, lvl: map<nat, nat>, par: map<nat, nat>, root: nat, height: nat, max: nat,
                         z: nat, y: nat)
    requires Overfull(s, lvl, par, root, height, max, root)
    requires z !in s && z != 0 && y !in lvl && y != 0 && z != y
    ensures Tree(SplitStore(s[z := Node([], [root])], z, 0, root, y, max / 2), lvl[z := height + 1][y := height],
                 Adopt(par[root := z], Back(s[root].kids, max / 2 + 1), y)[y := z], z, height + 1)
    ensures Sizes(SplitStore(s[z := Node([], [root])], z, 0, root, y, max / 2), lvl[z := height + 1][y := height],
                  z, height + 1, max, z)
    ensures Flat(SplitStore(s[z := Node([], [root])], z, 0, root, y, max / 2), z, height + 1) == Flat(s, root, height)
  {
    hide Adopt, KidsOk, Flat, Back;
    var v := s[z := Node([], [root])];
    SplitSizes(v, lvl[z := height + 1], z, height + 1, max, z, 0, root, y);
    RaiseRoot(s, lvl, par, root, height, z);
    SplitKeepsTree(v, lvl[z := height + 1], par[root := z], z, height + 1, z, 0, root, y, max / 2);
    SplitKeepsFlat(v, lvl[z := height + 1], par[root := z], z, height + 1, z, 0, root, y, max / 2);
  }

  // ---- Insertion

  /** The node with entry `e` put in at `pos` and, in an inner node, page
      `child` to the right of it. */
  ghost function Inserted<V>(n: Node<V>, pos: nat, e: Entry<V>, child: nat): Node<V>
    requires pos <= |n.items|
  {
    Node(n.items[..pos] + [e] + n.items[pos..],
         if pos < |n.kids| then n.kids[..pos + 1] + [child] + n.kids[pos + 1..] else n.kids)
  }

  /** Every entry before `pos` is where it was, `e` is at `pos`, every later
      entry is one place further; in an inner node the same holds of the
      children, with `child` right of `e`. A leaf stays a leaf. */
  ghost predicate RoomMade<V>(node: Node<V>, pos: nat, e: Entry<V>, child: nat, n: Node<V>)
    requires pos <= |node.items|
  {
    && |n.items| == |node.items| + 1 && n.items[pos] == e
    && (forall j :: 0 <= j < pos ==> n.items[j] == node.items[j])
    && (forall j :: pos < j < |n.items| ==> n.items[j] == node.items[j - 1])
    && |n.kids| == (if node.kids == [] then 0 else |node.kids| + 1)
    && (pos + 1 < |n.kids| ==> n.kids[pos + 1] == child)
    && (forall j :: 0 <= j <= pos < |node.kids| ==> n.kids[j] == node.kids[j])
    && (forall j :: pos + 1 < j < |n.kids| ==> n.kids[j] == node.kids[j - 1])
  }

  /** That determines the node. */
  lemma RoomIsInserted<V>(node: Node<V>, pos: nat, e: Entry<V>, child: nat, n: Node<V>)
    requires pos <= |node.items| && (node.kids == [] || |node.kids| == |node.items| + 1)
    requires RoomMade(node, pos, e, child, n)
    ensures n == Inserted(node, pos, e, child)
  {
    assert n.items == Inserted(node, pos, e, child).items;
    assert n.kids == Inserted(node, pos, e, child).kids;
  }

  /** The search path from the root down to level `i`, still as it was found. */
  ghost predicate PathIntact<V>(s: Store<V>, lvl: map<nat, nat>, root: nat, height: nat,
                                nodes: seq<nat>, positions: seq<nat>, i: nat) {
    && i < |nodes| == |positions| == height && nodes[0] == root
    && (forall k :: 0 <= k < i ==> StepsDown(s, nodes, positions, k))
    && (forall k :: 0 <= k <= i ==> nodes[k] in lvl && lvl[nodes[k]] == height - k)
  }

  /** Level `i` is about to take in entry `e` and page `child`; once it has, the
      tree spells `target` and only that level can be overfull. */
  ghost predicate Pending<V>(s: Store<V>, lvl: map<nat, nat>, par: map<nat, nat>, root: nat, height: nat, max: nat,
                             nodes: seq<nat>, positions: seq<nat>, i: nat, e: Entry<V>, child: nat,
                             target: seq<Entry<V>>) {
    && PathIntact(s, lvl, root, height, nodes, positions, i)
    && nodes[i] in s && positions[i] <= |s[nodes[i]].items| && SizeOk(|s[nodes[i]].items|, i == 0, height, max)
    && var v := s[nodes[i] := Inserted(s[nodes[i]], positions[i], e, child)];
    && Tree(v, lvl, par, root, height) && Sizes(v, lvl, root, height, max, nodes[i])
    && Flat(v, root, height) == target
  }

  lemma PathIsIntact<V>(s: Store<V>, lvl: map<nat, nat>, par: map<nat, nat>, root: nat, height: nat,
                        nodes: seq<nat>, positions: seq<nat>)
    requires Tree(s, lvl, par, root, height)
    requires IsPath(s, root, height, nodes, positions) && |nodes| == height
    ensures PathIntact(s, lvl, root, height, nodes, positions, height - 1)
    ensures nodes[height - 1] in s && lvl[nodes[height - 1]] == 1 && s[nodes[height - 1]].kids == []
    ensures nodes[height - 1] == root <==> height == 1
    ensures nodes[height - 1] != 0
  {
    forall k | 0 <= k < height ensures nodes[k] in lvl && lvl[nodes[k]] == height - k {
      PathLevels(s, lvl, par, root, height, nodes, positions, k);
    }
    assert NodeOk(s, lvl, par, nodes[height - 1]);
  }

  lemma SizesBut<V>(s: Store<V>, lvl: map<nat, nat>, root: nat, height: nat, max: nat, exc: nat, x: nat, n: Node<V>)
    requires Sizes(s, lvl, root, height, max, exc)
    requires exc == x || exc !in lvl
    ensures Sizes(s[x := n], lvl, root, height, max, x)
    ensures SizeOk(|n.items|, x == root, height, max) ==> Sizes(s[x := n], lvl, root, height, max, 0)
  {}

  lemma PendingAtLeaf<V>(s: Store<V>, lvl: map<nat, nat>, par: map<nat, nat>, root: nat, height: nat, max: nat,
                         nodes: seq<nat>, positions: seq<nat>, e: Entry<V>, child: nat)
    requires Tree(s, lvl, par, root, height) && Sizes(s, lvl, root, height, max, 0)
    requires Sorted(Flat(s, root, height))
    requires IsPath(s, root, height, nodes, positions) && |nodes| == height
    requires Turns(s, nodes, positions, e.key, height)
    ensures Pending(s, lvl, par, root, height, max, nodes, positions, height - 1, e, child,
                    Insert(Flat(s, root, height), e))
  {
    hide Flat, Sorted;
    var x, pos := nodes[height - 1], positions[height - 1];
    PathIsIntact(s, lvl, par, root, height, nodes, positions);
    assert 0 !in lvl && NodeOk(s, lvl, par, root);
    assert x in s && pos <= |s[x].items| && SizeOk(|s[x].items|, x == root, height, max) && x != 0;
    assert (height - 1 == 0) == (x == root);
    var n := Inserted(s[x], pos, e, child);
    assert n.items == s[x].items[..pos] + [e] + s[x].items[pos..] && n.kids == s[x].kids;
    SizesBut(s, lvl, root, height, max, 0, x, n);
    LeafRewritten(s, lvl, par, root, height, x, n);
    AddAlongPath(s, s[x := n], lvl, par, root, height, nodes, positions, e, 0);
    NowPending(s, lvl, par, root, height, max, nodes, positions, height - 1, e, child,
               Insert(Flat(s, root, height), e));
  }

  lemma NowPending<V>(s: Store<V>, lvl: map<nat, nat>, par: map<nat, nat>, root: nat, height: nat, max: nat,
                      nodes: seq<nat>, positions: seq<nat>, i: nat, e: Entry<V>, child: nat, target: seq<Entry<V>>)
    requires PathIntact(s, lvl, root, height, nodes, positions, i)
    requires nodes[i] in s && positions[i] <= |s[nodes[i]].items| && SizeOk(|s[nodes[i]].items|, i == 0, height, max)
    requires var v := s[nodes[i] := Inserted(s[nodes[i]], positions[i], e, child)];
      Tree(v, lvl, par, root, height) && Sizes(v, lvl, root, height, max, nodes[i]) && Flat(v, root, height) == target
    ensures Pending(s, lvl, par, root, height, max, nodes, positions, i, e, child, target)
  {
    hide PathIntact, SizeOk, Tree, Sizes, Flat, Inserted;
  }

  lemma PendingPlaced<V>(s: Store<V>, lvl: map<nat, nat>, par: map<nat, nat>, root: nat, height: nat, max: nat,
                         nodes: seq<nat>, positions: seq<nat>, i: nat, e: Entry<V>, child: nat, target: seq<Entry<V>>)
    requires max >= 2 && max % 2 == 0
    requires Pending(s, lvl, par, root, height, max, nodes, positions, i, e, child, target)
    requires |s[nodes[i]].items| < max
    ensures Tree(s[nodes[i] := Inserted(s[nodes[i]], positions[i], e, child)], lvl, par, root, height)
    ensures Sizes(s[nodes[i] := Inserted(s[nodes[i]], positions[i], e, child)], lvl, root, height, max, 0)
    ensures Flat(s[nodes[i] := Inserted(s[nodes[i]], positions[i], e, child)], root, height) == target
  {
    SizesBut(s[nodes[i] := Inserted(s[nodes[i]], positions[i], e, child)], lvl, root, height, max, nodes[i], nodes[i],
             Inserted(s[nodes[i]], positions[i], e, child));
  }

  /** `left`, `right` and `median` are the overfull node, cut in the middle. */
  ghost predicate Halves<V>(over: Node<V>, max: nat, left: Node<V>, right: Node<V>, median: Entry<V>) {
    && |over.items| == max + 1
    && left == Node(over.items[..max / 2], Front(over.kids, max / 2 + 1))
    && right == Node(over.items[max / 2 + 1..], Back(over.kids, max / 2 + 1))
    && median == over.items[max / 2]
  }

  /** The source never holds the overfull node: it stores the halves and lets
      the parent take in the median afterwards. */
  lemma HalvesStored<V>(s: Store<V>, max: nat, over: Node<V>, left: Node<V>, right: Node<V>, median: Entry<V>,
                        x: nat, y: nat, z: nat, pos: nat)
    requires Halves(over, max, left, right, median)
    requires z in s && x != z && y !in s && y != x && pos <= |s[z].items| && pos < |s[z].kids|
    ensures var t := s[x := left][y := right];
      t[z := Inserted(t[z], pos, median, y)] == SplitStore(s[x := over], z, pos, x, y, max / 2)
  {
    assert s[x := over][z] == s[z] && s[x := left][y := right][z] == s[z];
  }

  /** What a full node with an entry pending knows about its parent. */
  lemma ParentOnPath<V>(s: Store<V>, lvl: map<nat, nat>, par: map<nat, nat>, root: nat, height: nat, max: nat,
                        nodes: seq<nat>, positions: seq<nat>, i: nat, e: Entry<V>, child: nat, target: seq<Entry<V>>)
    requires i > 0 && Pending(s, lvl, par, root, height, max, nodes, positions, i, e, child, target)
    ensures i < |nodes| == |positions| && nodes[i] in lvl && nodes[i] in s && lvl[nodes[i]] > 0 && nodes[i] != root
    ensures forall q :: q in lvl ==> q in s
    ensures var z, pos := nodes[i - 1], positions[i - 1];
      && z in lvl && lvl[z] == lvl[nodes[i]] + 1 && z in s && z != nodes[i]
      && pos < |s[z].kids| && s[z].kids[pos] == nodes[i]
      && SizeOk(|s[z].items|, i - 1 == 0, height, max)
  {
    var x, z := nodes[i], nodes[i - 1];
    var v := s[x := Inserted(s[x], positions[i], e, child)];
    assert StepsDown(s, nodes, positions, i - 1) && x != z;
    assert forall q :: q in lvl ==> NodeOk(v, lvl, par, q);
    assert v[z] == s[z];
    hide NodeOk;
  }

  /** A full node at level `i > 0`, split around the entry it was to take in:
      the median is pending one level up. */
  lemma PendingUp<V>(s: Store<V>, lvl: map<nat, nat>, par: map<nat, nat>, root: nat, height: nat, max: nat,
                     nodes: seq<nat>, positions: seq<nat>, i: nat, e: Entry<V>, child: nat, target: seq<Entry<V>>,
                     y: nat, left: Node<V>, right: Node<V>, median: Entry<V>)
    requires max >= 2 && max % 2 == 0 && i > 0
    requires Pending(s, lvl, par, root, height, max, nodes, positions, i, e, child, target)
    requires |s[nodes[i]].items| == max && y !in s && y != 0
    requires Halves(Inserted(s[nodes[i]], positions[i], e, child), max, left, right, median)
    ensures Pending(s[nodes[i] := left][y := right], lvl[y := lvl[nodes[i]]],
                    Adopt(par, right.kids, y)[y := nodes[i - 1]],
                    root, height, max, nodes, positions, i - 1, median, y, target)
  {
    hide NodeOk, StepsDown, Sizes;
    ParentOnPath(s, lvl, par, root, height, max, nodes, positions, i, e, child, target);
    var x, z := nodes[i], nodes[i - 1];
    var over := Inserted(s[x], positions[i], e, child);
    assert Overfull(s[x := over], lvl, par, root, height, max, x);
    PathStaysIntact(s, s[x := left][y := right], lvl, lvl[y := lvl[x]], root, height, nodes, positions, i);
    hide PathIntact, Tree;
    SplitPlaced(s, lvl, par, root, height, max, z, positions[i - 1], x, y, over, left, right, median);
  }

  /** Storing the halves and giving the median to the parent is splitting the
      overfull node. */
  lemma SplitPlaced<V>(s: Store<V>, lvl: map<nat, nat>, par: map<nat, nat>, root: nat, height: nat, max: nat,
                       z: nat, pos: nat, x: nat, y: nat, over: Node<V>, left: Node<V>, right: Node<V>, median: Entry<V>)
    requires Overfull(s[x := over], lvl, par, root, height, max, x)
    requires z in lvl && lvl[z] > 1 && z in s && pos < |s[z].kids| && s[z].kids[pos] == x
    requires y !in lvl && y !in s && y != 0 && x != root && x != z && y != x
    requires Halves(over, max, left, right, median)
    ensures pos <= |s[z].items|
    ensures var t, lvl' := s[x := left][y := right], lvl[y := lvl[x]];
      var v := t[z := Inserted(t[z], pos, median, y)];
      && Tree(v, lvl', Adopt(par, right.kids, y)[y := z], root, height)
      && Sizes(v, lvl', root, height, max, z)
      && Flat(v, root, height) == Flat(s[x := over], root, height)
  {
    var v := s[x := over];
    hide NodeOk;
    ChildFacts(v, lvl, par, root, height, z, pos);
    SplitStep(v, lvl, par, root, height, max, z, pos, x, y);
    hide Tree, Sizes;
    HalvesStored(s, max, over, left, right, median, x, y, z, pos);
  }

  lemma PathStaysIntact<V>(s: Store<V>, t: Store<V>, lvl: map<nat, nat>, lvl': map<nat, nat>, root: nat, height: nat,
                           nodes: seq<nat>, positions: seq<nat>, i: nat)
    requires PathIntact(s, lvl, root, height, nodes, positions, i) && i > 0
    requires forall q :: q in lvl ==> q in lvl' && lvl'[q] == lvl[q]
    requires forall q :: q in lvl && q in s && lvl[q] > lvl[nodes[i]] ==> q in t && t[q] == s[q]
    ensures PathIntact(t, lvl', root, height, nodes, positions, i - 1)
  {
    forall k | 0 <= k < i - 1 ensures StepsDown(t, nodes, positions, k) {
      assert StepsDown(s, nodes, positions, k);
    }
  }

  lemma RootHalvesStored<V>(s: Store<V>, max: nat, over: Node<V>, left: Node<V>, right: Node<V>, median: Entry<V>,
                            root: nat, y: nat, z: nat)
    requires Halves(over, max, left, right, median)
    requires root != z && y !in s && y != root && z !in s && y != z
    ensures s[root := left][y := right][z := Node([median], [root, y])]
         == SplitStore(s[root := over][z := Node([], [root])], z, 0, root, y, max / 2)
  {
    var v := s[root := over][z := Node([], [root])];
    assert v[root] == over && v[z] == Node([], [root]);
    assert ([root])[..1] + [y] + ([root])[1..] == [root, y];
    var none: seq<Entry<V>> := [];
    assert none[..0] + [median] + none[0..] == [median];
  }

  lemma RootIsOverfull<V>(s: Store<V>, lvl: map<nat, nat>, par: map<nat, nat>, root: nat, height: nat, max: nat,
                          nodes: seq<nat>, positions: seq<nat>, e: Entry<V>, child: nat, target: seq<Entry<V>>)
    requires max >= 2 && max % 2 == 0
    requires Pending(s, lvl, par, root, height, max, nodes, positions, 0, e, child, target)
    requires root in s && |s[root].items| == max
    ensures Overfull(s[root := Inserted(s[root], positions[0], e, child)], lvl, par, root, height, max, root)
    ensures Flat(s[root := Inserted(s[root], positions[0], e, child)], root, height) == target
    ensures forall p :: p in lvl ==> p in s
  {
    var v := s[root := Inserted(s[root], positions[0], e, child)];
    assert forall p :: p in lvl ==> NodeOk(v, lvl, par, p);
    hide NodeOk;
  }

  /** A full root, split: a new root above it takes the median. */
  lemma PendingRoot<V>(s: Store<V>, lvl: map<nat, nat>, par: map<nat, nat>, root: nat, height: nat, max: nat,
                       over: Node<V>, y: nat, left: Node<V>, right: Node<V>, median: Entry<V>, z: nat)
    requires Overfull(s[root := over], lvl, par, root, height, max, root) && Halves(over, max, left, right, median)
    requires root in s && y !in s && y != 0 && z !in s && z != 0 && y != z && y !in lvl
    ensures Tree(s[root := left][y := right][z := Node([median], [root, y])], lvl[z := height + 1][y := height],
                 Adopt(par[root := z], right.kids, y)[y := z], z, height + 1)
    ensures Sizes(s[root := left][y := right][z := Node([median], [root, y])], lvl[z := height + 1][y := height],
                  z, height + 1, max, z)
    ensures Flat(s[root := left][y := right][z := Node([median], [root, y])], z, height + 1)
         == Flat(s[root := over], root, height)
  {
    SplitRootStep(s[root := over], lvl, par, root, height, max, z, y);
    hide Tree, NodeOk, Sizes;
    RootHalvesStored(s, max, over, left, right, median, root, y, z);
  }

  /** The root has been cut but the median has no place yet. */
  ghost predicate RootCut<V>(pre: Store<V>, s: Store<V>, lvl: map<nat, nat>, par: map<nat, nat>, root: nat, height: nat,
                             max: nat, over: Node<V>, left: Node<V>, right: Node<V>, e: Entry<V>, child: nat,
                             target: seq<Entry<V>>) {
    && root in pre && child !in pre && child != 0 && child !in lvl && child != root
    && s == pre[root := left][child := right]
    && Overfull(pre[root := over], lvl, par, root, height, max, root) && Halves(over, max, left, right, e)
    && Flat(pre[root := over], root, height) == target
  }

  lemma RootIsCut<V>(s: Store<V>, lvl: map<nat, nat>, par: map<nat, nat>, root: nat, height: nat, max: nat,
                     nodes: seq<nat>, positions: seq<nat>, e: Entry<V>, child: nat, target: seq<Entry<V>>,
                     y: nat, left: Node<V>, right: Node<V>, median: Entry<V>)
    requires max >= 2 && max % 2 == 0
    requires Pending(s, lvl, par, root, height, max, nodes, positions, 0, e, child, target)
    requires root in s && |s[root].items| == max && y !in s && y != 0
    requires Halves(Inserted(s[root], positions[0], e, child), max, left, right, median)
    ensures RootCut(s, s[root := left][y := right], lvl, par, root, height, max,
                    Inserted(s[root], positions[0], e, child), left, right, median, y, target)
  {
    RootIsOverfull(s, lvl, par, root, height, max, nodes, positions, e, child, target);
  }

  lemma NewRootSize<V>(s: Store<V>, lvl: map<nat, nat>, z: nat, height: nat, max: nat)
    requires max >= 1 && z in s && |s[z].items| == 1 && Sizes(s, lvl, z, height, max, z)
    ensures Sizes(s, lvl, z, height, max, 0)
  {}

  lemma NewRoot<V>(pre: Store<V>, s: Store<V>, lvl: map<nat, nat>, par: map<nat, nat>, root: nat, height: nat,
                   max: nat, over: Node<V>, left: Node<V>, right: Node<V>, e: Entry<V>, child: nat,
                   target: seq<Entry<V>>, z: nat)
    requires RootCut(pre, s, lvl, par, root, height, max, over, left, right, e, child, target)
    requires z !in s && z != 0
    ensures Tree(s[z := Node([e], [root, child])], lvl[z := height + 1][child := height],
                 Adopt(par[root := z], right.kids, child)[child := z], z, height + 1)
    ensures Sizes(s[z := Node([e], [root, child])], lvl[z := height + 1][child := height], z, height + 1, max, 0)
    ensures Flat(s[z := Node([e], [root, child])], z, height + 1) == target
  {
    hide Adopt, Flat;
    assert forall p :: p in lvl ==> NodeOk(pre[root := over], lvl, par, p);
    PendingRoot(pre, lvl, par, root, height, max, over, child, left, right, e, z);
    NewRootSize(s[z := Node([e], [root, child])], lvl[z := height + 1][child := height], z, height + 1, max);
  }
}