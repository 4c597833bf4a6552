// The path a search leaves behind, and what a change along it does to the
// entries the tree spells.
module BTreePath {
  import opened SortedEntries
  import opened BTreeStore

  /** `nodes` are the pages visited from the root down, `positions` the child
      (or entry) chosen at each. */
  ghost predicate IsPath<V>(s: Store<V>, root: nat, height: nat, nodes: seq<nat>, positions: seq<nat>) {
    && 1 <= |nodes| == |positions| <= height && nodes[0] == root
    && forall i :: 0 <= i < |nodes| - 1 ==> StepsDown(s, nodes, positions, i)
  }

  ghost predicate StepsDown<V>(s: Store<V>, nodes: seq<nat>, positions: seq<nat>, i: nat)
    requires i + 1 < |nodes| == |positions|
  {
    nodes[i] in s && positions[i] < |s[nodes[i]].kids| && s[nodes[i]].kids[positions[i]] == nodes[i + 1]
  }

  lemma ExtendPath<V>(s: Store<V>, root: nat, height: nat, nodes: seq<nat>, positions: seq<nat>, page: nat)
    requires IsPath(s, root, height, nodes, positions) && |nodes| < height
    requires var n := |nodes| - 1;
      nodes[n] in s && positions[n] < |s[nodes[n]].kids| && s[nodes[n]].kids[positions[n]] == page
    ensures IsPath(s, root, height, nodes + [page], positions + [0])
  {
    var ns, ps := nodes + [page], positions + [0];
    forall i | 0 <= i < |ns| - 1 ensures StepsDown(s, ns, ps, i) {
      if i < |nodes| - 1 {
        assert StepsDown(s, nodes, positions, i);
      }
    }
  }

  /** The position at the end of a path is free. */
  lemma RepositionPath<V>(s: Store<V>, root: nat, height: nat, nodes: seq<nat>, positions: seq<nat>, page: nat,
                          pos: nat)
    requires |nodes| == |positions| && IsPath(s, root, height, nodes + [page], positions + [0])
    ensures IsPath(s, root, height, nodes + [page], positions + [pos])
  {
    var ns, ps := nodes + [page], positions + [pos];
    forall i | 0 <= i < |ns| - 1 ensures StepsDown(s, ns, ps, i) {
      assert StepsDown(s, ns, positions + [0], i);
    }
  }

  /** `pos` is the insertion point of `k` among the entries. */
  ghost predicate Gap<V>(items: seq<Entry<V>>, pos: nat, k: int) {
    && pos <= |items|
    && (forall i :: 0 <= i < pos ==> items[i].key < k)
    && (forall i :: pos <= i < |items| ==> k < items[i].key)
  }

  lemma {:induction false} PathLevels<V>(s: Store<V>, lvl: map<nat, nat>, par: map<nat, nat>, root: nat, height: nat,
                                         nodes: seq<nat>, positions: seq<nat>, i: nat)
    requires Tree(s, lvl, par, root, height) && IsPath(s, root, height, nodes, positions) && i < |nodes|
    ensures nodes[i] in lvl && lvl[nodes[i]] == height - i && nodes[i] != 0 && nodes[i] in s
    ensures NodeOk(s, lvl, par, nodes[i])
    ensures i > 0 ==> nodes[i] in par && par[nodes[i]] == nodes[i - 1]
  {
    if i > 0 {
      PathLevels(s, lvl, par, root, height, nodes, positions, i - 1);
      assert StepsDown(s, nodes, positions, i - 1);
    }
  }

  /** A page off the path spells what it did before the path was rewritten. */
  lemma {:induction false} OffPath<V>(s: Store<V>, t: Store<V>, lvl: map<nat, nat>, par: map<nat, nat>,
                                      root: nat, height: nat, nodes: seq<nat>, positions: seq<nat>, q: nat)
    requires Tree(s, lvl, par, root, height) && IsPath(s, root, height, nodes, positions) && |nodes| == height
    requires forall p :: p in lvl && p !in nodes ==> p in s && p in t && t[p] == s[p]
    requires q in lvl && q !in nodes
    ensures Flat(s, q, lvl[q]) == Flat(t, q, lvl[q])
    decreases lvl[q]
  {
    assert NodeOk(s, lvl, par, q);
    var kids := s[q].kids;
    forall i | 0 <= i < |kids| ensures Flat(s, kids[i], lvl[q] - 1) == Flat(t, kids[i], lvl[q] - 1) {
      forall j | 0 <= j < |nodes| ensures nodes[j] != kids[i] {
        PathLevels(s, lvl, par, root, height, nodes, positions, j);
      }
      OffPath(s, t, lvl, par, root, height, nodes, positions, kids[i]);
    }
    if lvl[q] > 1 {
      assert KidFlats(s, kids, lvl[q] - 1) == KidFlats(t, kids, lvl[q] - 1);
    }
  }

  /** Level `i` of the path, before and after, seen from level `i + 1`: only
      the child on the path and the node's own entries can differ. */
  lemma FocusStep<V>(s: Store<V>, t: Store<V>, lvl: map<nat, nat>, par: map<nat, nat>, root: nat, height: nat,
                     nodes: seq<nat>, positions: seq<nat>, i: nat)
    requires Tree(s, lvl, par, root, height) && IsPath(s, root, height, nodes, positions) && |nodes| == height
    requires forall p :: p in lvl && p !in nodes ==> p in s && p in t && t[p] == s[p]
    requires i + 1 < height && nodes[i] in s && nodes[i] in t && s[nodes[i]].kids == t[nodes[i]].kids
    requires |s[nodes[i]].items| == |t[nodes[i]].items|
    ensures positions[i] <= |s[nodes[i]].items| == |s[nodes[i]].kids| - 1
    ensures var h, z, c, pos := height - i, nodes[i], nodes[i + 1], positions[i];
      var fs := KidFlats(s, s[z].kids, h - 1);
      && Flat(s, z, h) == Weave(fs, s[z].items)
      && fs[pos] == Flat(s, c, h - 1)
      && Flat(s, z, h) == LeftOf(fs, s[z].items, pos) + Flat(s, c, h - 1) + RightOf(fs, s[z].items, pos)
      && Flat(t, z, h) == LeftOf(fs, t[z].items, pos) + Flat(t, c, h - 1) + RightOf(fs, t[z].items, pos)
  {
    hide NodeOk, KidFlats, Tree, KidsOk, Weave;
    var h, z, c, pos := height - i, nodes[i], nodes[i + 1], positions[i];
    PathLevels(s, lvl, par, root, height, nodes, positions, i);
    assert StepsDown(s, nodes, positions, i);
    var kids := s[z].kids;
    var fs, gs := KidFlats(s, kids, h - 1), KidFlats(t, kids, h - 1);
    forall j | 0 <= j < |kids| && j != pos ensures fs[j] == gs[j] {
      KidOffPath(s, lvl, par, root, height, nodes, positions, i, j);
      OffPath(s, t, lvl, par, root, height, nodes, positions, kids[j]);
    }
    assert gs == fs[pos := gs[pos]];
    assert gs[..pos] == fs[..pos] && gs[pos + 1..] == fs[pos + 1..];
    WeaveFocus(fs, s[z].items, pos);
    WeaveFocus(gs, t[z].items, pos);
  }

  lemma KidOffPath<V>(s: Store<V>, lvl: map<nat, nat>, par: map<nat, nat>, root: nat, height: nat,
                      nodes: seq<nat>, positions: seq<nat>, i: nat, j: nat)
    requires Tree(s, lvl, par, root, height) && IsPath(s, root, height, nodes, positions)
    requires i + 1 < |nodes| && nodes[i] in s && j < |s[nodes[i]].kids| && j != positions[i]
    ensures s[nodes[i]].kids[j] in lvl && s[nodes[i]].kids[j] !in nodes && height >= i + 2
    ensures lvl[s[nodes[i]].kids[j]] == height - i - 1
  {
    PathLevels(s, lvl, par, root, height, nodes, positions, i);
    PathLevels(s, lvl, par, root, height, nodes, positions, i + 1);
    assert StepsDown(s, nodes, positions, i);
    var q := s[nodes[i]].kids[j];
    assert lvl[q] == height - i - 1;
    forall k | 0 <= k < |nodes| ensures nodes[k] != q {
      PathLevels(s, lvl, par, root, height, nodes, positions, k);
    }
  }

  /** A search path: every inner turn is taken at the insertion point. */
  ghost predicate Turns<V>(s: Store<V>, nodes: seq<nat>, positions: seq<nat>, k: int, n: nat)
    requires |nodes| == |positions|
  {
    forall i :: 0 <= i < n && i < |nodes| ==> nodes[i] in s && Gap(s[nodes[i]].items, positions[i], k)
  }

  lemma SortedOnPath<V>(s: Store<V>, lvl: map<nat, nat>, par: map<nat, nat>, root: nat, height: nat,
                        nodes: seq<nat>, positions: seq<nat>, i: nat)
    requires Tree(s, lvl, par, root, height) && IsPath(s, root, height, nodes, positions) && |nodes| == height
    requires i + 1 < height && nodes[i] in s && Sorted(Flat(s, nodes[i], height - i))
    ensures Sorted(Flat(s, nodes[i + 1], height - i - 1))
  {
    PathLevels(s, lvl, par, root, height, nodes, positions, i);
    FocusStep(s, s, lvl, par, root, height, nodes, positions, i);
    var fs := KidFlats(s, s[nodes[i]].kids, height - i - 1);
    SortedParts(LeftOf(fs, s[nodes[i]].items, positions[i]), Flat(s, nodes[i + 1], height - i - 1),
                RightOf(fs, s[nodes[i]].items, positions[i]));
  }

  lemma InsertAtGap<V>(items: seq<Entry<V>>, pos: nat, e: Entry<V>)
    requires Gap(items, pos, e.key)
    ensures Insert(items, e) == items[..pos] + [e] + items[pos..]
  {
    assert items == items[..pos] + [] + items[pos..];
    InsertBetween(items[..pos], [], items[pos..], e);
  }

  /** Adding an entry at its gap in the leaf adds it to what every node on the
      path spells. */
  lemma {:induction false} AddAlongPath<V>(s: Store<V>, t: Store<V>, lvl: map<nat, nat>, par: map<nat, nat>,
                                           root: nat, height: nat, nodes: seq<nat>, positions: seq<nat>,
                                           e: Entry<V>, i: nat)
    requires Tree(s, lvl, par, root, height) && IsPath(s, root, height, nodes, positions) && |nodes| == height
    requires Turns(s, nodes, positions, e.key, height) && i < height
    requires Sorted(Flat(s, nodes[i], height - i))
    requires nodes[height - 1] in s
    requires var x, pos := nodes[height - 1], positions[height - 1];
      t == s[x := Node(s[x].items[..pos] + [e] + s[x].items[pos..], s[x].kids)]
    ensures Flat(t, nodes[i], height - i) == Insert(Flat(s, nodes[i], height - i), e)
    decreases height - i
  {
    hide KidFlats, StepsDown, KidsOk, RightOf, LeftOf, Weave, Insert, Sorted, HasKey, Above, Below;
    PathLevels(s, lvl, par, root, height, nodes, positions, i);
    var items := s[nodes[i]].items;
    if i == height - 1 {
      InsertAtGap(items, positions[i], e);
    } else {
      PathLevels(s, lvl, par, root, height, nodes, positions, height - 1);
      SortedOnPath(s, lvl, par, root, height, nodes, positions, i);
      AddAlongPath(s, t, lvl, par, root, height, nodes, positions, e, i + 1);
      FocusStep(s, t, lvl, par, root, height, nodes, positions, i);
      var fs := KidFlats(s, s[nodes[i]].kids, height - i - 1);
      FocusGap(fs, items, positions[i], e.key);
      InsertBetween(LeftOf(fs, items, positions[i]), Flat(s, nodes[i + 1], height - i - 1),
                    RightOf(fs, items, positions[i]), e);
    }
  }

  /** From the node that holds the change upwards, removal is removal. */
  lemma {:induction false} RemoveAlongPath<V>(s: Store<V>, t: Store<V>, lvl: map<nat, nat>, par: map<nat, nat>,
                                              root: nat, height: nat, nodes: seq<nat>, positions: seq<nat>,
                                              k: int, j: nat, i: nat)
    requires Tree(s, lvl, par, root, height) && IsPath(s, root, height, nodes, positions) && |nodes| == height
    requires i <= j < height && Turns(s, nodes, positions, k, j)
    requires forall p :: p in lvl && p !in nodes[j..] ==> p in s && p in t && t[p] == s[p]
    requires Sorted(Flat(s, nodes[i], height - i))
    requires Flat(t, nodes[j], height - j) == Remove(Flat(s, nodes[j], height - j), k)
    ensures Flat(t, nodes[i], height - i) == Remove(Flat(s, nodes[i], height - i), k)
    decreases j - i
  {
    hide LeftOf, Weave, Flat, Remove;
    if i < j {
      PathLevels(s, lvl, par, root, height, nodes, positions, i);
      forall a | j <= a < height ensures nodes[a] != nodes[i] {
        PathLevels(s, lvl, par, root, height, nodes, positions, a);
      }
      SortedOnPath(s, lvl, par, root, height, nodes, positions, i);
      RemoveAlongPath(s, t, lvl, par, root, height, nodes, positions, k, j, i + 1);
      FocusStep(s, t, lvl, par, root, height, nodes, positions, i);
      var items := s[nodes[i]].items;
      var fs := KidFlats(s, s[nodes[i]].kids, height - i - 1);
      FocusGap(fs, items, positions[i], k);
      RemoveBetween(LeftOf(fs, items, positions[i]), Flat(s, nodes[i + 1], height - i - 1),
                    RightOf(fs, items, positions[i]), k);
    }
  }

  /** Down the right edge, dropping the leaf's last entry drops the last entry
      of what every node on the edge spells. */
  lemma {:induction false} DropAlongEdge<V>(s: Store<V>, t: Store<V>, lvl: map<nat, nat>, par: map<nat, nat>,
                                            root: nat, height: nat, nodes: seq<nat>, positions: seq<nat>, i: nat,
                                            j: nat)
    requires Tree(s, lvl, par, root, height) && IsPath(s, root, height, nodes, positions) && |nodes| == height
    requires j < i < height
    requires forall a :: i <= a < height - 1 ==> nodes[a] in s && positions[a] == |s[nodes[a]].items|
    requires forall p :: p in lvl && p != nodes[j] && p != nodes[height - 1] ==> p in s && p in t && t[p] == s[p]
    requires var x := nodes[height - 1];
      x in s && x in t && |s[x].items| > 0 && t[x] == Node(s[x].items[..|s[x].items| - 1], s[x].kids)
    ensures var f, items := Flat(s, nodes[i], height - i), s[nodes[height - 1]].items;
      |f| > 0 && f[|f| - 1] == items[|items| - 1] && Flat(t, nodes[i], height - i) == f[..|f| - 1]
    decreases height - i
  {
    hide NodeOk, KidFlats, Tree, IsPath, StepsDown, KidsOk, LeftOf, Weave;
    PathLevels(s, lvl, par, root, height, nodes, positions, i);
    if i < height - 1 {
      PathLevels(s, lvl, par, root, height, nodes, positions, height - 1);
      PathLevels(s, lvl, par, root, height, nodes, positions, j);
      DropAlongEdge(s, t, lvl, par, root, height, nodes, positions, i + 1, j);
      FocusStep(s, t, lvl, par, root, height, nodes, positions, i);
    }
  }
}
