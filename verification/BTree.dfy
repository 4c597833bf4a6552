// The paged B-tree: search, insertion with median split, removal with
// predecessor replacement, borrowing and merging, and the iterator.
module BTree {
  import opened SortedEntries
  import opened BTreeStore
  import opened BTreePath
  import opened BTreeSteps
  import opened BTreeRemoval
  import opened PageNumbers
  import opened Wrappers

  datatype Removal = NotFound | Removed | TreeDeleted

  /** The binary search within one node (the loop of the source keeps both ends
      of the interval and never leaves `pos == max` with a larger score). */
  method SearchNode<V>(items: seq<Entry<V>>, score: int) returns (found: bool, pos: nat)
    requires Sorted(items)
    ensures found ==> pos < |items| && items[pos].key == score
    ensures !found ==> Gap(items, pos, score)
  {
    pos := 0;
    var min, max := 0, |items| - 1;
    while min <= max
      invariant 0 <= min <= |items| && -1 <= max < |items|
      invariant min <= max || |items| == 0
      invariant |items| == 0 ==> pos == 0
      invariant forall i :: 0 <= i < min ==> items[i].key < score
      invariant forall i :: max < i < |items| ==> score < items[i].key
      decreases max - min
    {
      pos := (max - min) / 2 + min;
      if score == items[pos].key {
        return true, pos;
      } else if score > items[pos].key {
        if max == pos {
          pos := pos + 1;
          break;
        }
        if min == pos {
          min := min + 1;
          continue;
        }
        min := pos;
      } else {
        if max == pos {
          break;
        }
        max := pos;
      }
    }
    found := false;
  }

  /** Shifts the tail of a node by one to make room for an entry and, in an
      inner node, for the child to the right of it. */
  method InsertIntoNode<V>(node: Node<V>, pos: nat, e: Entry<V>, child: nat) returns (n: Node<V>)
    requires pos <= |node.items| && (node.kids == [] || |node.kids| == |node.items| + 1)
    ensures RoomMade(node, pos, e, child, n)
    ensures Sorted(node.items) && Gap(node.items, pos, e.key) ==> Sorted(n.items)
  {
    n := Node(node.items[..pos] + [e] + node.items[pos..],
              if node.kids == [] then [] else node.kids[..pos + 1] + [child] + node.kids[pos + 1..]);
  }

  ghost predicate FullNode<V>(node: Node<V>, max: nat) {
    max >= 2 && max % 2 == 0 && |node.items| == max && (node.kids == [] || |node.kids| == max + 1)
  }

  lemma SplitBefore<V>(node: Node<V>, max: nat, pos: nat, e: Entry<V>, child: nat, left: Node<V>, right: Node<V>)
    requires FullNode(node, max) && pos < max / 2
    requires left.items == node.items[..pos] + [e] + node.items[pos..max / 2 - 1] &&
      right.items == node.items[max / 2..]
    requires if node.kids == [] then left.kids == right.kids == [] else
      && left.kids == node.kids[..pos + 1] + [child] + node.kids[pos + 1..max / 2]
      && right.kids == node.kids[max / 2..]
    ensures Halves(Inserted(node, pos, e, child), max, left, right, node.items[max / 2 - 1])
  {
    var over, mid := Inserted(node, pos, e, child), max / 2;
    assert over.items[..mid] == left.items;
    assert over.items[mid + 1..] == right.items;
    if node.kids != [] {
      assert over.kids[..mid + 1] == left.kids;
      assert over.kids[mid + 1..] == right.kids;
    }
  }

  lemma SplitThere<V>(node: Node<V>, max: nat, pos: nat, e: Entry<V>, child: nat, left: Node<V>, right: Node<V>)
    requires FullNode(node, max) && pos == max / 2
    requires left.items == node.items[..pos] && right.items == node.items[pos..]
    requires if node.kids == [] then left.kids == right.kids == [] else
      left.kids == node.kids[..pos + 1] && right.kids == [child] + node.kids[pos + 1..]
    ensures Halves(Inserted(node, pos, e, child), max, left, right, e)
  {
    var over := Inserted(node, pos, e, child);
    assert over.items[..pos] == left.items;
    assert over.items[pos + 1..] == right.items;
    if node.kids != [] {
      assert over.kids[..pos + 1] == left.kids;
      assert over.kids[pos + 1..] == right.kids;
    }
  }

  lemma SplitBehind<V>(node: Node<V>, max: nat, pos: nat, e: Entry<V>, child: nat, left: Node<V>, right: Node<V>)
    requires FullNode(node, max) && max / 2 < pos <= max
    requires left.items == node.items[..max / 2]
    requires right.items == node.items[max / 2 + 1..pos] + [e] + node.items[pos..]
    requires if node.kids == [] then left.kids == right.kids == [] else
      && left.kids == node.kids[..max / 2 + 1]
      && right.kids == node.kids[max / 2 + 1..pos + 1] + [child] + node.kids[pos + 1..]
    ensures Halves(Inserted(node, pos, e, child), max, left, right, node.items[max / 2])
  {
    hide Inserted, Front, Back;
    ItemsBehind(node, max, pos, e, child);
    KidsBehind(node, max, pos, e, child);
  }

  lemma ItemsBehind<V>(node: Node<V>, max: nat, pos: nat, e: Entry<V>, child: nat)
    requires FullNode(node, max) && max / 2 < pos <= max
    ensures var over, mid := Inserted(node, pos, e, child), max / 2;
      && |over.items| == max + 1 && over.items[..mid] == node.items[..mid] && over.items[mid] == node.items[mid]
      && over.items[mid + 1..] == node.items[mid + 1..pos] + [e] + node.items[pos..]
  {
    CutBefore(node.items, pos, e, max / 2);
    CutBefore(node.items, pos, e, max / 2 + 1);
  }

  lemma KidsBehind<V>(node: Node<V>, max: nat, pos: nat, e: Entry<V>, child: nat)
    requires FullNode(node, max) && max / 2 < pos <= max
    ensures var over, m := Inserted(node, pos, e, child), max / 2 + 1;
      if node.kids == [] then Front(over.kids, m) == Back(over.kids, m) == [] else
        && Front(over.kids, m) == node.kids[..m]
        && Back(over.kids, m) == node.kids[m..pos + 1] + [child] + node.kids[pos + 1..]
  {
    if node.kids != [] {
      CutBefore(node.kids, pos + 1, child, max / 2 + 1);
    }
  }

  /** A list with an element put in behind the place where it is cut. */
  lemma CutBefore<T>(s: seq<T>, p: nat, x: T, m: nat)
    requires m <= p <= |s|
    ensures var t := s[..p] + [x] + s[p..];
      |t| == |s| + 1 && t[..m] == s[..m] && t[m..] == s[m..p] + [x] + s[p..] && (m < p ==> t[m] == s[m])
  {}

  /** Splits a full node around the median of its entries and the new one,
      without ever holding the overfull node: three cases by where the new
      entry falls. */
  method SplitNode<V>(node: Node<V>, max: nat, pos: nat, e: Entry<V>, child: nat)
    returns (left: Node<V>, right: Node<V>, median: Entry<V>)
    requires max >= 2 && max % 2 == 0 && |node.items| == max && pos <= max
    requires node.kids == [] || |node.kids| == max + 1
    ensures Halves(Inserted(node, pos, e, child), max, left, right, median)
  {
    hide Halves, Inserted;
    var mid := max / 2;
    var items, kids := node.items, node.kids;
    var inner := kids != [];
    if pos < mid {
      left := Node(items[..pos] + [e] + items[pos..mid - 1],
                   if inner then kids[..pos + 1] + [child] + kids[pos + 1..mid] else []);
      right := Node(items[mid..], if inner then kids[mid..] else []);
      median := items[mid - 1];
      SplitBefore(node, max, pos, e, child, left, right);
    } else if pos == mid {
      left := Node(items[..mid], if inner then kids[..mid + 1] else []);
      right := Node(items[mid..], if inner then [child] + kids[mid + 1..] else []);
      median := e;
      SplitThere(node, max, pos, e, child, left, right);
    } else {
      left := Node(items[..mid], if inner then kids[..mid + 1] else []);
      right := Node(items[mid + 1..pos] + [e] + items[pos..],
                    if inner then kids[mid + 1..pos + 1] + [child] + kids[pos + 1..] else []);
      median := items[mid];
      SplitBehind(node, max, pos, e, child, left, right);
    }
  }

  /** A search that has not ended: it stands at `page`, and the key is in the
      tree exactly when it is in the subtree there. */
  ghost predicate Searching<V>(s: Store<V>, lvl: map<nat, nat>, root: nat, height: nat, score: int,
                               nodes: seq<nat>, positions: seq<nat>, page: nat) {
    && |nodes| == |positions| && page in lvl && lvl[page] == height - |nodes|
    && IsPath(s, root, height, nodes + [page], positions + [0])
    && Turns(s, nodes, positions, score, |nodes|)
    && Sorted(Flat(s, page, lvl[page]))
    && (HasKey(Flat(s, root, height), score) <==> HasKey(Flat(s, page, lvl[page]), score))
  }

  lemma SearchableNode<V>(s: Store<V>, lvl: map<nat, nat>, par: map<nat, nat>, root: nat, height: nat, page: nat)
    requires Tree(s, lvl, par, root, height) && page in lvl && Sorted(Flat(s, page, lvl[page]))
    ensures page in s && Sorted(s[page].items) && 1 <= lvl[page] <= height
    ensures lvl[page] == 1 <==> s[page].kids == []
    ensures s[page].kids != [] ==> |s[page].kids| == |s[page].items| + 1
  {
    assert NodeOk(s, lvl, par, page);
    if lvl[page] > 1 {
      assert Flat(s, page, lvl[page]) == Weave(KidFlats(s, s[page].kids, lvl[page] - 1), s[page].items);
      WeaveItemsSorted(KidFlats(s, s[page].kids, lvl[page] - 1), s[page].items);
    }
  }

  lemma SearchDown<V>(s: Store<V>, lvl: map<nat, nat>, par: map<nat, nat>, root: nat, height: nat, score: int,
                      nodes: seq<nat>, positions: seq<nat>, page: nat, pos: nat)
    requires Tree(s, lvl, par, root, height) && Searching(s, lvl, root, height, score, nodes, positions, page)
    requires page in s && Gap(s[page].items, pos, score)
    ensures IsPath(s, root, height, nodes + [page], positions + [pos])
    ensures Turns(s, nodes + [page], positions + [pos], score, |nodes| + 1)
    ensures s[page].kids == [] ==> |nodes| + 1 == height && !HasKey(Flat(s, root, height), score)
    ensures s[page].kids != [] ==>
      && pos < |s[page].kids| && |nodes| + 1 < height
      && Searching(s, lvl, root, height, score, nodes + [page], positions + [pos], s[page].kids[pos])
  {
    hide Weave, Distinct;
    SearchableNode(s, lvl, par, root, height, page);
    RepositionPath(s, root, height, nodes, positions, page, pos);
    if s[page].kids != [] {
      assert NodeOk(s, lvl, par, page);
      var h := lvl[page] - 1;
      assert Flat(s, page, h + 1) == Weave(KidFlats(s, s[page].kids, h), s[page].items);
      FocusGap(KidFlats(s, s[page].kids, h), s[page].items, pos, score);
      ExtendPath(s, root, height, nodes + [page], positions + [pos], s[page].kids[pos]);
    }
  }

  /** What the insertion loop reads at level `i`. */
  lemma PendingNode<V>(s: Store<V>, lvl: map<nat, nat>, par: map<nat, nat>, root: nat, height: nat, max: nat,
                       nodes: seq<nat>, positions: seq<nat>, i: nat, e: Entry<V>, child: nat, target: seq<Entry<V>>)
    requires Pending(s, lvl, par, root, height, max, nodes, positions, i, e, child, target)
    ensures i < |nodes| == |positions| == height && nodes[i] in s && nodes[i] in lvl && nodes[i] != 0
    ensures if i == 0 then nodes[i] == root else StepsDown(s, nodes, positions, i - 1)
    ensures positions[i] <= |s[nodes[i]].items| <= max
    ensures s[nodes[i]].kids == [] || |s[nodes[i]].kids| == |s[nodes[i]].items| + 1
    ensures forall p :: p in lvl ==> p in s
  {
    var v := s[nodes[i] := Inserted(s[nodes[i]], positions[i], e, child)];
    assert NodeOk(v, lvl, par, nodes[i]);
    assert forall p :: p in lvl ==> NodeOk(v, lvl, par, p);
  }

  /** Child `j + 1` takes the separator, the parent the last entry of child `j`. */
  method ShiftRight<V>(s: Store<V>, z: nat, j: nat) returns (t: Store<V>)
    requires TwoKids(s, z, j)
    requires SameShape(s[s[z].kids[j]], s[s[z].kids[j + 1]]) && |s[s[z].kids[j]].items| > 0
    ensures t == Redealt(s, z, j, |s[s[z].kids[j]].items| - 1)
  {
    BorrowedFromLeft(s, z, j);
    hide Redealt;
    var page, leftPage := s[z].kids[j + 1], s[z].kids[j];
    var node, left, up := s[page], s[leftPage], s[z];
    var n := |left.items| - 1;
    t := s[page := Node([up.items[j]] + node.items,
                        if left.kids == [] then node.kids else [left.kids[n + 1]] + node.kids)]
          [leftPage := Node(left.items[..n], if left.kids == [] then [] else left.kids[..n + 1])]
          [z := Node(up.items[j := left.items[n]], up.kids)];
  }

  /** Child `j` takes the separator, the parent the first entry of child `j + 1`. */
  method ShiftLeft<V>(s: Store<V>, z: nat, j: nat) returns (t: Store<V>)
    requires TwoKids(s, z, j)
    requires SameShape(s[s[z].kids[j]], s[s[z].kids[j + 1]]) && |s[s[z].kids[j + 1]].items| > 0
    ensures t == Redealt(s, z, j, |s[s[z].kids[j]].items| + 1)
  {
    BorrowedFromRight(s, z, j);
    hide Redealt;
    var page, rightPage := s[z].kids[j], s[z].kids[j + 1];
    var node, right, up := s[page], s[rightPage], s[z];
    t := s[rightPage := Node(right.items[1..], if node.kids == [] then [] else right.kids[1..])]
          [page := Node(node.items + [up.items[j]],
                        if node.kids == [] then [] else node.kids + [right.kids[0]])]
          [z := Node(up.items[j := right.items[0]], up.kids)];
  }

  class BTree<V> {
    const max: nat
    var store: Store<V>
    var root: nat
    var height: nat
    var count: nat
    ghost var lvl: map<nat, nat>
    ghost var par: map<nat, nat>

    /** The tree is sound except that node `exc` may be a little too small or
        too big. */
    ghost predicate SoundBut(exc: nat)
      reads this
    {
      && max >= 2 && max % 2 == 0
      && Tree(store, lvl, par, root, height)
      && Sizes(store, lvl, root, height, max, exc)
    }

    ghost function Contents(): seq<Entry<V>>
      reads this
    {
      Flat(store, root, height)
    }

    ghost predicate Valid()
      reads this
    {
      SoundBut(0) && Sorted(Contents()) && count == |Contents()|
    }

    constructor (max: nat)
      requires max >= 2 && max % 2 == 0
      ensures Valid() && Contents() == [] && this.max == max
    {
      this.max := max;
      store := map[1 := Node([], [])];
      root := 1;
      height := 1;
      count := 0;
      lvl := map[1 := 1];
      par := map[];
    }

    /** Walks from the root towards `score`. */
    method FindScore(score: int) returns (value: Option<V>, nodes: seq<nat>, positions: seq<nat>)
      requires Valid()
      ensures IsPath(store, root, height, nodes, positions)
      ensures value.Some? <==> HasKey(Contents(), score)
      ensures value.Some? ==> Turns(store, nodes, positions, score, |nodes| - 1)
      ensures value.Some? ==>
        var p, pos := nodes[|nodes| - 1], positions[|nodes| - 1];
        p in store && pos < |store[p].items| && store[p].items[pos] == Entry(score, value.value)
      ensures value.None? ==> |nodes| == height && Turns(store, nodes, positions, score, height)
    {
      hide Flat, Sorted;
      nodes, positions := [], [];
      var page := root;
      assert Searching(store, lvl, root, height, score, nodes, positions, page);
      var i := 0;
      while i < height
        invariant 0 <= i <= height && |nodes| == |positions| == i
        invariant i < height ==> Searching(store, lvl, root, height, score, nodes, positions, page)
        invariant i == height ==> IsPath(store, root, height, nodes, positions)
        invariant i == height ==> Turns(store, nodes, positions, score, height) && !HasKey(Contents(), score)
      {
        StandsAt(store, lvl, par, root, height, score, nodes, positions, page);
        var node := store[page];
        var found, pos := SearchNode(node.items, score);
        if found {
          RepositionPath(store, root, height, nodes, positions, page, pos);
          FoundIn(store, page, height - i, pos);
          return Some(node.items[pos].value), nodes + [page], positions + [pos];
        }
        SearchDown(store, lvl, par, root, height, score, nodes, positions, page, pos);
        nodes, positions := nodes + [page], positions + [pos];
        if node.kids != [] {
          page := node.kids[pos];
        }
        i := i + 1;
      }
      value := None;
    }

    /** One level of the insertion: the node takes the entry in, or is split
        around it and leaves its median to the level above. */
    method TakeIn(nodes: seq<nat>, positions: seq<nat>, i: nat, e: Entry<V>, child: nat, ghost target: seq<Entry<V>>)
      returns (placed: bool, e': Entry<V>, child': nat, ghost cut: (Store<V>, Node<V>, Node<V>, Node<V>))
      requires max >= 2 && max % 2 == 0
      requires Pending(store, lvl, par, root, height, max, nodes, positions, i, e, child, target)
      modifies this`store, this`lvl, this`par
      ensures placed ==> Tree(store, lvl, par, root, height) && Sizes(store, lvl, root, height, max, 0)
      ensures placed ==> Flat(store, root, height) == target
      ensures !placed && i > 0 ==>
        Pending(store, lvl, par, root, height, max, nodes, positions, i - 1, e', child', target)
      ensures !placed && i == 0 ==>
        RootCut(cut.0, store, lvl, par, root, height, max, cut.1, cut.2, cut.3, e', child', target)
    {
      hide Tree, Sizes, Pending, RootCut, Flat, Insert, Inserted, RoomMade, Sorted, Gap, Adopt, Halves;
      PendingNode(store, lvl, par, root, height, max, nodes, positions, i, e, child, target);
      var page := if i == 0 then root else store[nodes[i - 1]].kids[positions[i - 1]];
      var node := store[page];
      e', child', cut := e, child, (store, node, node, node);
      if |node.items| < max {
        PendingPlaced(store, lvl, par, root, height, max, nodes, positions, i, e, child, target);
        var grown := InsertIntoNode(node, positions[i], e, child);
        RoomIsInserted(node, positions[i], e, child, grown);
        store := store[page := grown];
        placed := true;
      } else {
        var left, right, median := SplitNode(node, max, positions[i], e, child);
        var y := FreshPage(store.Keys);
        if i == 0 {
          RootIsCut(store, lvl, par, root, height, max, nodes, positions, e, child, target, y, left, right, median);
          cut := (store, Inserted(node, positions[0], e, child), left, right);
        } else {
          PendingUp(store, lvl, par, root, height, max, nodes, positions, i, e, child, target, y, left, right, median);
          lvl, par := lvl[y := lvl[page]], Adopt(par, right.kids, y)[y := nodes[i - 1]];
        }
        store := store[page := left][y := right];
        placed, e', child' := false, median, y;
      }
    }

    /** The new root over a cut one. */
    method GrowRoot(e: Entry<V>, child: nat, ghost target: seq<Entry<V>>,
                    ghost cut: (Store<V>, Node<V>, Node<V>, Node<V>))
      requires RootCut(cut.0, store, lvl, par, root, height, max, cut.1, cut.2, cut.3, e, child, target)
      modifies this`store, this`lvl, this`par, this`root, this`height
      ensures Tree(store, lvl, par, root, height) && Sizes(store, lvl, root, height, max, 0)
      ensures Flat(store, root, height) == target
    {
      hide Tree, Sizes, Flat, Adopt, RootCut;
      var z := FreshPage(store.Keys);
      NewRoot(cut.0, store, lvl, par, root, height, max, cut.1, cut.2, cut.3, e, child, target, z);
      lvl, par := lvl[z := height + 1][child := height], Adopt(par[root := z], cut.3.kids, child)[child := z];
      store := store[z := Node([e], [root, child])];
      root := z;
      height := height + 1;
    }

    /** Carries an entry up the search path until some level takes it in. */
    method Ascend(nodes: seq<nat>, positions: seq<nat>, entry: Entry<V>, ghost target: seq<Entry<V>>)
      requires max >= 2 && max % 2 == 0 && height >= 1
      requires Pending(store, lvl, par, root, height, max, nodes, positions, height - 1, entry, 0, target)
      modifies this`store, this`lvl, this`par, this`root, this`height
      ensures Tree(store, lvl, par, root, height) && Sizes(store, lvl, root, height, max, 0)
      ensures Flat(store, root, height) == target
    {
      hide Tree, Sizes, Pending, RootCut, Flat;
      var e, child, placed := entry, 0, false;
      ghost var cut: (Store<V>, Node<V>, Node<V>, Node<V>) := (store, Node([], []), Node([], []), Node([], []));
      var i := height - 1;
      while i >= 0 && !placed
        invariant -1 <= i < height
        invariant placed ==> Tree(store, lvl, par, root, height) && Sizes(store, lvl, root, height, max, 0)
        invariant placed ==> Flat(store, root, height) == target
        invariant !placed && i >= 0 ==> Pending(store, lvl, par, root, height, max, nodes, positions, i, e, child,
                                                target)
        invariant !placed && i < 0 ==>
          RootCut(cut.0, store, lvl, par, root, height, max, cut.1, cut.2, cut.3, e, child, target)
        decreases if placed then 0 else i + 1
      {
        placed, e, child, cut := TakeIn(nodes, positions, i, e, child, target);
        i := i - 1;
      }
      if !placed {
        GrowRoot(e, child, target, cut);
      }
    }

    /** Puts an entry where the search for its key ended. */
    method Place(nodes: seq<nat>, positions: seq<nat>, e: Entry<V>)
      requires max >= 2 && max % 2 == 0 && Tree(store, lvl, par, root, height) &&
        Sizes(store, lvl, root, height, max, 0)
      requires Sorted(Flat(store, root, height)) && IsPath(store, root, height, nodes, positions) && |nodes| == height
      requires Turns(store, nodes, positions, e.key, height)
      modifies this`store, this`lvl, this`par, this`root, this`height
      ensures Tree(store, lvl, par, root, height) && Sizes(store, lvl, root, height, max, 0)
      ensures Flat(store, root, height) == Insert(old(Flat(store, root, height)), e)
    {
      assert height >= 1;
      hide Tree, Sizes, Pending, Flat, Insert, IsPath, Turns, Sorted;
      PendingAtLeaf(store, lvl, par, root, height, max, nodes, positions, e, 0);
      Ascend(nodes, positions, e, Insert(Flat(store, root, height), e));
    }

    /** Adds an entry unless its key is present. */
    method Add(score: int, value: V) returns (ok: bool)
      requires Valid()
      modifies this
      ensures Valid()
      ensures ok <==> !old(HasKey(Contents(), score))
      ensures Contents() == if ok then Insert(old(Contents()), Entry(score, value)) else old(Contents())
    {
      hide Tree, Sizes, Flat, Insert, HasKey, IsPath, Turns, Sorted;
      var present, nodes, positions := FindScore(score);
      if present.Some? {
        return false;
      }
      ok := true;
      InsertIsMapUpdate(Flat(store, root, height), Entry(score, value));
      Place(nodes, positions, Entry(score, value));
      count := count + 1;
    }

    /** Extends a path that ends at an entry of an inner node down the right
        edge of the child before that entry, to its leaf. */
    method Descend(nodes0: seq<nat>, positions0: seq<nat>) returns (nodes: seq<nat>, positions: seq<nat>)
      requires Tree(store, lvl, par, root, height)
      requires IsPath(store, root, height, nodes0, positions0)
      requires nodes0[|nodes0| - 1] in store && positions0[|nodes0| - 1] < |store[nodes0[|nodes0| - 1]].items|
      ensures IsPath(store, root, height, nodes, positions) && |nodes| == height
      ensures nodes0 <= nodes && positions0 <= positions
      ensures forall a :: |nodes0| <= a < height ==> nodes[a] in store && positions[a] == |store[nodes[a]].items|
    {
      nodes, positions := nodes0, positions0;
      ghost var j := |nodes0| - 1;
      var i := |nodes| - 1;
      while i < height - 1
        invariant 0 <= j <= i < height && |nodes| == |positions| == i + 1
        invariant IsPath(store, root, height, nodes, positions)
        invariant nodes0 <= nodes && positions0 <= positions
        invariant forall a :: j < a <= i ==> nodes[a] in store && positions[a] == |store[nodes[a]].items|
      {
        PathLevels(store, lvl, par, root, height, nodes, positions, i);
        hide Tree;
        var child := store[nodes[i]].kids[positions[i]];
        assert child in store;
        ExtendPath(store, root, height, nodes, positions, child);
        RepositionPath(store, root, height, nodes, positions, child, |store[child].items|);
        nodes, positions := nodes + [child], positions + [|store[child].items|];
        i := i + 1;
      }
    }

    /** Takes the last entry of the left neighbour through the parent. */
    method BorrowLeft(z: nat, j: nat)
      requires max >= 2 && max % 2 == 0
      requires Neighbours(store, lvl, par, root, height, z, j)
      requires Sizes(store, lvl, root, height, max, store[z].kids[j + 1])
      requires max / 2 < |store[store[z].kids[j]].items| <= max
      requires |store[store[z].kids[j + 1]].items| + 1 == max / 2
      modifies this`store, this`par
      ensures Flat(store, root, height) == old(Flat(store, root, height))
      ensures Tree(store, lvl, par, root, height) && Sizes(store, lvl, root, height, max, 0)
    {
      hide *;
      ghost var adopted := LastLent(store, lvl, par, root, height, max, z, j);
      var t := ShiftRight(store, z, j);
      par := adopted;
      store := t;
    }

    /** Takes the first entry of the right neighbour through the parent. */
    method BorrowRight(z: nat, j: nat)
      requires max >= 2 && max % 2 == 0
      requires Neighbours(store, lvl, par, root, height, z, j)
      requires Sizes(store, lvl, root, height, max, store[z].kids[j])
      requires max / 2 < |store[store[z].kids[j + 1]].items| <= max
      requires |store[store[z].kids[j]].items| + 1 == max / 2
      modifies this`store, this`par
      ensures Flat(store, root, height) == old(Flat(store, root, height))
      ensures Tree(store, lvl, par, root, height) && Sizes(store, lvl, root, height, max, 0)
    {
      hide *;
      ghost var adopted := FirstLent(store, lvl, par, root, height, max, z, j);
      var t := ShiftLeft(store, z, j);
      par := adopted;
      store := t;
    }

    /** Pulls the separator down between two neighbours and frees the right
        page; the source does this to the left neighbour of the short node if it
        has one and to the right neighbour otherwise. */
    method MergeNeighbours(nodes: seq<nat>, positions: seq<nat>, i: nat, j: nat)
      requires max >= 2 && max % 2 == 0 && i > 0
      requires Underfull(store, lvl, par, root, height, max, nodes, positions, i)
      requires Neighbours(store, lvl, par, root, height, nodes[i - 1], j)
      requires positions[i - 1] == j || positions[i - 1] == j + 1
      requires max / 2 <= |Joined(store, nodes[i - 1], j).items| <= max
      modifies this`store, this`lvl, this`par
      ensures Flat(store, root, height) == old(Flat(store, root, height))
      ensures Underfull(store, lvl, par, root, height, max, nodes, positions, i - 1)
    {
      hide StepsDown, KidsOk, Flat, SizeOk, Distinct;
      var z := nodes[i - 1];
      var leftPage, rightPage := store[z].kids[j], store[z].kids[j + 1];
      var left, right, up := store[leftPage], store[rightPage], store[z];
      MergeStep(store, lvl, par, root, height, max, nodes, positions, i, j);
      MergeKeepsFlat(store, lvl, par, root, height, z, j);
      lvl, par := lvl - {rightPage}, Adopt(par, right.kids, leftPage);
      store := store[leftPage := Node(left.items + [up.items[j]] + right.items, left.kids + right.kids)]
                    [z := Node(up.items[..j] + up.items[j + 1..], up.kids[..j + 1] + up.kids[j + 2..])]
               - {rightPage};
    }

    /** The node at level `i > 0` is one entry short: borrow from a neighbour
        that can spare one, left before right, or else merge, which leaves the
        parent one entry short (`done` is false). */
    method PutRight(nodes: seq<nat>, positions: seq<nat>, i: nat) returns (done: bool)
      requires max >= 2 && max % 2 == 0 && i > 0
      requires Underfull(store, lvl, par, root, height, max, nodes, positions, i)
      requires |store[nodes[i]].items| < max / 2
      modifies this`store, this`lvl, this`par
      ensures Flat(store, root, height) == old(Flat(store, root, height))
      ensures done ==> Tree(store, lvl, par, root, height) && Sizes(store, lvl, root, height, max, 0)
      ensures !done ==> Underfull(store, lvl, par, root, height, max, nodes, positions, i - 1)
    {
      var page, upPage, p := nodes[i], nodes[i - 1], positions[i - 1];
      UnderfullNode(store, lvl, par, root, height, max, nodes, positions, i, upPage, p);
      hide Tree, NodeOk, Flat, PathIntact;
      var node, up := store[page], store[upPage];
      if p > 0 {
        var leftPage := up.kids[p - 1];
        var left := store[leftPage];
        if |left.items| > max / 2 {
          BorrowLeft(upPage, p - 1);
          return true;
        }
      }
      if p < |up.items| {
        var rightPage := up.kids[p + 1];
        var right := store[rightPage];
        if |right.items| > max / 2 {
          BorrowRight(upPage, p);
          return true;
        }
      }
      var j := if p > 0 then p - 1 else p;
      MergeNeighbours(nodes, positions, i, j);
      done := false;
    }

    /** Overwrites the entry at the end of the path, in an inner node, by its
        predecessor, which leaves its leaf. */
    method TakeFromInner(nodes0: seq<nat>, positions0: seq<nat>, ghost score: int)
      returns (nodes: seq<nat>, positions: seq<nat>)
      requires SoundBut(0) && Sorted(Contents())
      requires IsPath(store, root, height, nodes0, positions0)
      requires Turns(store, nodes0, positions0, score, |nodes0| - 1)
      requires var p, pos := nodes0[|nodes0| - 1], positions0[|nodes0| - 1];
        p in store && pos < |store[p].items| && store[p].items[pos].key == score && store[p].kids != []
      modifies this`store
      ensures |nodes| == |positions| == height >= 1
      ensures Flat(store, root, height) == Remove(old(Contents()), score)
      ensures Underfull(store, lvl, par, root, height, max, nodes, positions, height - 1)
    {
      hide Tree, Sizes, Flat;
      var j := |nodes0| - 1;
      var page, pos := nodes0[j], positions0[j];
      nodes, positions := Descend(nodes0, positions0);
      EdgeReached(store, lvl, par, root, height, max, nodes0, positions0, nodes, positions, score);
      RemoveFromInner(store, lvl, par, root, height, nodes, positions, j, score);
      ReplacedIsUnderfull(store, lvl, par, root, height, max, nodes, positions, j);
      var leafPage := nodes[height - 1];
      var node, leaf := store[page], store[leafPage];
      var n := |leaf.items| - 1;
      store := store[page := Node(node.items[pos := leaf.items[n]], node.kids)]
                    [leafPage := Node(leaf.items[..n], leaf.kids)];
    }

    /** Takes the entry at the end of the path out of the tree: directly in a
        leaf, by its predecessor in an inner node. Only the leaf ends up short. */
    method TakeOut(nodes0: seq<nat>, positions0: seq<nat>, ghost score: int)
      returns (nodes: seq<nat>, positions: seq<nat>)
      requires SoundBut(0) && Sorted(Contents())
      requires IsPath(store, root, height, nodes0, positions0)
      requires Turns(store, nodes0, positions0, score, |nodes0| - 1)
      requires var p, pos := nodes0[|nodes0| - 1], positions0[|nodes0| - 1];
        p in store && pos < |store[p].items| && store[p].items[pos].key == score
      modifies this`store
      ensures |nodes| == |positions| == height >= 1
      ensures Flat(store, root, height) == Remove(old(Contents()), score)
      ensures Underfull(store, lvl, par, root, height, max, nodes, positions, height - 1)
    {
      hide Sizes, Flat, Remove, Sorted, Distinct;
      var j := |nodes0| - 1;
      var page, pos := nodes0[j], positions0[j];
      var node := store[page];
      PathLevels(store, lvl, par, root, height, nodes0, positions0, j);
      if node.kids != [] {
        nodes, positions := TakeFromInner(nodes0, positions0, score);
      } else {
        nodes, positions := nodes0, positions0;
        var n := Node(node.items[..pos] + node.items[pos + 1..], node.kids);
        RemoveFromLeaf(store, lvl, par, root, height, nodes, positions, score, n);
        LeafShrinks(store, lvl, par, root, height, max, nodes, positions, n);
        store := store[page := n];
      }
    }

    /** An empty root gives way to its only child, or to nothing. */
    method SettleRoot(ghost nodes: seq<nat>, ghost positions: seq<nat>)
      requires max >= 2 && max % 2 == 0 && height >= 1
      requires Underfull(store, lvl, par, root, height, max, nodes, positions, 0)
      modifies this`store, this`lvl, this`root, this`height
      ensures if old(Contents()) == [] then height == 0 && root == 0
              else SoundBut(0) && Contents() == old(Contents())
    {
      hide Tree, Sizes;
      RootNode(store, lvl, par, root, height, max, nodes, positions);
      if |store[root].items| == 0 {
        if store[root].kids != [] {
          LowerRootStep(store, lvl, par, root, height, max, nodes, positions);
          lvl := map p | p in lvl && lvl[p] < height :: lvl[p];
          root := store[root].kids[0];
          height := height - 1;
        } else {
          store := store - {root};
          root := 0;
          height := height - 1;
        }
      } else {
        NoLongerUnderfull(store, lvl, par, root, height, max, nodes, positions, 0);
        NonEmptyRoot(store, lvl, par, root, height, max);
      }
    }

    /** Walks back up the path until no node is short. */
    method Rebalance(nodes: seq<nat>, positions: seq<nat>)
      requires max >= 2 && max % 2 == 0 && |nodes| == height >= 1
      requires Underfull(store, lvl, par, root, height, max, nodes, positions, height - 1)
      modifies this`store, this`lvl, this`par, this`root, this`height
      ensures if old(Contents()) == [] then height == 0 && root == 0
              else SoundBut(0) && Contents() == old(Contents())
    {
      ghost var target := Contents();
      hide Tree, NodeOk, Sizes, Underfull, Flat;
      var i := height - 1;
      var done := false;
      while i > 0 && !done
        invariant 0 <= i < height == |nodes| && (done ==> i > 0) && root == old(root) && height == old(height)
        invariant Flat(store, root, height) == target
        invariant if done then Tree(store, lvl, par, root, height) && Sizes(store, lvl, root, height, max, 0)
                  else Underfull(store, lvl, par, root, height, max, nodes, positions, i)
        decreases if done then 0 else i + 1
      {
        UnderfullAt(store, lvl, par, root, height, max, nodes, positions, i);
        if |store[nodes[i]].items| >= max / 2 {
          NoLongerUnderfull(store, lvl, par, root, height, max, nodes, positions, i);
          done := true;
        } else {
          done := PutRight(nodes, positions, i);
          if !done {
            i := i - 1;
          }
        }
      }
      if !done {
        SettleRoot(nodes, positions);
      } else {
        NonEmptyRoot(store, lvl, par, root, height, max);
      }
    }

    /** Removes the entry of a key, if there is one. The last removal frees the
        tree itself. */
    method RemoveElement(score: int) returns (status: Removal)
      requires Valid()
      modifies this
      ensures status == NotFound <==> !old(HasKey(Contents(), score))
      ensures status == NotFound ==> Valid() && Contents() == old(Contents())
      ensures status == Removed ==> Valid() && Contents() == Remove(old(Contents()), score)
      ensures status == TreeDeleted <==> old(HasKey(Contents(), score)) && old(|Contents()|) == 1
      ensures status == TreeDeleted ==> height == 0 && root == 0
    {
      hide Tree, Sizes, Sorted, HasKey;
      var present, nodes, positions := FindScore(score);
      if present.None? {
        return NotFound;
      }
      RemoveIsMapRemoval(Contents(), score);
      nodes, positions := TakeOut(nodes, positions, score);
      Rebalance(nodes, positions);
      count := count - 1;
      status := if count == 0 then TreeDeleted else Removed;
    }
  }

  /** Any run of changes to a tree, a new one taking the place of one deleted with
      its last entry, leaves what the same run leaves of a finite map. */
  method Perform<V>(max: nat, changes: seq<Change<V>>) returns (tree: BTree<V>)
    requires max >= 2 && max % 2 == 0
    ensures tree.Valid() && tree.Contents() == ListAfter(changes)
    ensures AsMap(tree.Contents()) == MapAfter(changes) && tree.count == |MapAfter(changes)|
  {
    hide Sorted, HasKey, Insert, Remove, Flat, Tree, Sizes;
    tree := new BTree(max);
    assert changes[..0] == [];
    for i := 0 to |changes|
      invariant tree.Valid() && tree.max == max && fresh(tree) && tree.Contents() == ListAfter(changes[..i])
    {
      OneMoreChange(changes, i);
      ghost var was := tree.Contents();
      match changes[i]
      case Put(e) =>
        var ok := tree.Add(e.key, e.value);
      case Drop(k) =>
        RunIsMapRun(changes[..i]);
        if !HasKey(was, k) {
          RemoveAbsent(was, k);
        }
        var status := tree.RemoveElement(k);
        if status == TreeDeleted {
          RemoveOnly(was, k);
          tree := new BTree(max);
        }
    }
    assert changes[..|changes|] == changes;
    RunIsMapRun(changes);
  }

  /** The left neighbour has an entry to spare: its last goes up, the separator down. */
  lemma LastLent<V>(s: Store<V>, lvl: map<nat, nat>, par: map<nat, nat>, root: nat, height: nat, max: nat, z: nat,
                    j: nat)
    returns (adopted: map<nat, nat>)
    requires max >= 2 && max % 2 == 0 && Neighbours(s, lvl, par, root, height, z, j)
    requires Sizes(s, lvl, root, height, max, s[z].kids[j + 1])
    requires max / 2 < |s[s[z].kids[j]].items| <= max && |s[s[z].kids[j + 1]].items| + 1 == max / 2
    ensures TwoKids(s, z, j) && SameShape(s[s[z].kids[j]], s[s[z].kids[j + 1]]) && |s[s[z].kids[j]].items| > 0
    ensures var t := Redealt(s, z, j, |s[s[z].kids[j]].items| - 1);
      && Tree(t, lvl, adopted, root, height) && Sizes(t, lvl, root, height, max, 0)
      && Flat(t, root, height) == Flat(s, root, height)
  {
    hide Redealt, Sizes, Flat, Back;
    CanLend(s, lvl, par, root, height, z, j);
    var n := |s[s[z].kids[j]].items| - 1;
    adopted := RedealtParents(s, par, z, j, n);
    RedealStep(s, lvl, par, root, height, max, z, j, n, s[z].kids[j + 1]);
  }

  /** The right neighbour has: its first goes up, the separator down. */
  lemma FirstLent<V>(s: Store<V>, lvl: map<nat, nat>, par: map<nat, nat>, root: nat, height: nat, max: nat, z: nat,
                     j: nat)
    returns (adopted: map<nat, nat>)
    requires max >= 2 && max % 2 == 0 && Neighbours(s, lvl, par, root, height, z, j)
    requires Sizes(s, lvl, root, height, max, s[z].kids[j])
    requires max / 2 < |s[s[z].kids[j + 1]].items| <= max && |s[s[z].kids[j]].items| + 1 == max / 2
    ensures TwoKids(s, z, j) && SameShape(s[s[z].kids[j]], s[s[z].kids[j + 1]]) && |s[s[z].kids[j + 1]].items| > 0
    ensures var t := Redealt(s, z, j, |s[s[z].kids[j]].items| + 1);
      && Tree(t, lvl, adopted, root, height) && Sizes(t, lvl, root, height, max, 0)
      && Flat(t, root, height) == Flat(s, root, height)
  {
    CanLend(s, lvl, par, root, height, z, j);
    hide Tree, Sizes, Flat, Redealt, RedealtParents, SameShape;
    var n := |s[s[z].kids[j]].items| + 1;
    adopted := RedealtParents(s, par, z, j, n);
    RedealStep(s, lvl, par, root, height, max, z, j, n, s[z].kids[j]);
  }

  lemma RootNode<V>(s: Store<V>, lvl: map<nat, nat>, par: map<nat, nat>, root: nat, height: nat, max: nat,
                    nodes: seq<nat>, positions: seq<nat>)
    requires Underfull(s, lvl, par, root, height, max, nodes, positions, 0)
    ensures root in s && root in lvl && nodes[0] == root && |s[root].items| <= max
    ensures height == 1 <==> s[root].kids == []
    ensures height == 1 ==> Flat(s, root, height) == s[root].items
  {
    assert NodeOk(s, lvl, par, root);
  }

  lemma NonEmptyRoot<V>(s: Store<V>, lvl: map<nat, nat>, par: map<nat, nat>, root: nat, height: nat, max: nat)
    requires Tree(s, lvl, par, root, height) && Sizes(s, lvl, root, height, max, 0)
    requires height > 1 || (root in s && |s[root].items| > 0)
    ensures Flat(s, root, height) != []
  {
    assert NodeOk(s, lvl, par, root);
    FoundIn(s, root, height, 0);
  }

  lemma LowerRootStep<V>(s: Store<V>, lvl: map<nat, nat>, par: map<nat, nat>, root: nat, height: nat, max: nat,
                         nodes: seq<nat>, positions: seq<nat>)
    requires max >= 2 && max % 2 == 0 && height > 1 && root in s && s[root].items == []
    requires Underfull(s, lvl, par, root, height, max, nodes, positions, 0)
    ensures |s[root].kids| == 1
    ensures var lvl', c := map p | p in lvl && lvl[p] < height :: lvl[p], s[root].kids[0];
      && Tree(s, lvl', par, c, height - 1) && Sizes(s, lvl', c, height - 1, max, 0)
      && Flat(s, c, height - 1) == Flat(s, root, height) != []
  {
    LowerRoot(s, lvl, par, root, height);
    var c := s[root].kids[0];
    assert NodeOk(s, lvl, par, root) && NodeOk(s, lvl, par, c);
    assert SizeOk(|s[c].items|, false, height, max);
    FoundIn(s, c, height - 1, 0);
  }

  /** The leaf at the end of the right edge has an entry to give. */
  lemma EdgeReached<V>(s: Store<V>, lvl: map<nat, nat>, par: map<nat, nat>, root: nat, height: nat, max: nat,
                       nodes0: seq<nat>, positions0: seq<nat>, nodes: seq<nat>, positions: seq<nat>, k: int)
    requires max >= 2 && max % 2 == 0
    requires Tree(s, lvl, par, root, height) && Sizes(s, lvl, root, height, max, 0)
    requires IsPath(s, root, height, nodes, positions) && |nodes| == height
    requires 1 <= |nodes0| == |positions0| && nodes0 <= nodes && positions0 <= positions
    requires Turns(s, nodes0, positions0, k, |nodes0| - 1)
    requires forall a :: |nodes0| <= a < height ==> nodes[a] in s && positions[a] == |s[nodes[a]].items|
    requires var p, pos := nodes0[|nodes0| - 1], positions0[|nodes0| - 1];
      p in s && pos < |s[p].items| && s[p].kids != []
    ensures EdgePath(s, root, height, nodes, positions, |nodes0| - 1)
    ensures nodes[|nodes0| - 1] == nodes0[|nodes0| - 1] && positions[|nodes0| - 1] == positions0[|nodes0| - 1]
    ensures Turns(s, nodes, positions, k, |nodes0| - 1)
  {
    var j := |nodes0| - 1;
    PathLevels(s, lvl, par, root, height, nodes, positions, j);
    PathLevels(s, lvl, par, root, height, nodes, positions, height - 1);
    assert forall a :: 0 <= a <= j ==> nodes[a] == nodes0[a] && positions[a] == positions0[a];
  }

  lemma UnderfullAt<V>(s: Store<V>, lvl: map<nat, nat>, par: map<nat, nat>, root: nat, height: nat, max: nat,
                       nodes: seq<nat>, positions: seq<nat>, i: nat)
    requires Underfull(s, lvl, par, root, height, max, nodes, positions, i)
    ensures i < |nodes| && nodes[i] in s && |s[nodes[i]].items| <= max
  {}

  lemma StandsAt<V>(s: Store<V>, lvl: map<nat, nat>, par: map<nat, nat>, root: nat, height: nat, score: int,
                    nodes: seq<nat>, positions: seq<nat>, page: nat)
    requires Tree(s, lvl, par, root, height) && Searching(s, lvl, root, height, score, nodes, positions, page)
    ensures page in s && Sorted(s[page].items) && height > |nodes| == |positions|
    ensures IsPath(s, root, height, nodes + [page], positions + [0])
    ensures Turns(s, nodes + [page], positions + [0], score, |nodes|)
    ensures height - |nodes| > 1 ==> |s[page].kids| == |s[page].items| + 1
    ensures HasKey(Flat(s, root, height), score) <==> HasKey(Flat(s, page, height - |nodes|), score)
  {
    SearchableNode(s, lvl, par, root, height, page);
  }

  lemma FoundIn<V>(s: Store<V>, p: nat, h: nat, pos: nat)
    requires h >= 1 && p in s && pos < |s[p].items| && (h > 1 ==> |s[p].kids| == |s[p].items| + 1)
    ensures HasKey(Flat(s, p, h), s[p].items[pos].key)
  {
    var items := s[p].items;
    if h > 1 {
      var fs := KidFlats(s, s[p].kids, h - 1);
      WeaveCut(fs, items, pos);
      var a, b := Weave(fs[..pos + 1], items[..pos]), Weave(fs[pos + 1..], items[pos + 1..]);
      assert Flat(s, p, h) == a + [items[pos]] + b;
      assert Flat(s, p, h)[|a|] == items[pos];
    }
  }
}